# zotero-manage restore and library tools, modelled in Dafny

This project models the core of the zotero-manage scripts:

- **`zotunzip`** restores a Zotero backup that was downloaded as numbered ZIP parts (`<prefix>1.zip`, `<prefix>2.zip`, …). It proceeds as follows:
  - finds the parts whose names are the literal prefix, digits and `.zip` in any case;
  - sorts them by part number and reports gaps in the numbering;
  - validates each archive;
  - extracts every member below a target directory. Each member passes an absolute-path test and a string-prefix containment test, an existing file of the same size is skipped, and files are written through a temporary file that is renamed into place.
  - Each member's result is counted as extracted, skipped or an error, and the run succeeds when no part had an error.
- **`zotcopy`** flattens a Zotero storage tree into one directory. It keeps only the newest file of each base name, where the base name is the file name without its extension and without a trailing ` <digits>` copy number, lower-cased.
- **`zotdb`** reads the local library database. The model covers:
  - linking collections into a tree by their parent ids;
  - the `Parent / Child / Grandchild` full path;
  - the roots and the per-collection summary;
  - the key lookup and the pre-order descendant ids used to list a collection's items;
  - the `storage:` prefix of attachment paths;
  - the dispatch of item field rows to item fields.
- **`zotapi`** covers the offline half of the web API client:
  - the `.keys` file parser;
  - the configuration loaded from the environment or the keys file;
  - the attachment and item records built from the API's JSON;
  - the author string.

The filesystem is a map from absolute paths (segment sequences) to nodes, either a file with a size and mode or a directory. The ZIP reader is an oracle: each member declares its name, size, external attributes and whether its data reads back intact. `Path.resolve()` is lexical normalisation of the segments.

Objects the source updates in place are classes:
- `ZipFileInfo`, whose validation sets `isValid` and `errorMessage`;
- `ZoteroCollection`, whose linking pass fills `parentKey` and `children`;
- `LocalZoteroItem`, whose field rows set its fields;
- the filesystem itself.

Loops are methods proved against specification functions, and the properties the scripts promise are lemmas about those functions.

Modules, one file each:
- `Strings`: ASCII character classes, case, strip, join and decimal digits.
- `Sorting`: the stable sort by key.
- `Paths`: `PurePosixPath` parsing and lexical `resolve`.
- `FileSystems`: the path→node map and the primitives `mkdir -p`, temporary file, write, `replace`, `chmod` and `unlink`.
- `ZipArchives`: the archive oracle and `testzip`.
- `ZipParts`: part discovery, continuity and validation.
- `SafeExtract`: `safe_extract_member`.
- `Restore`: `extract_zip_file` and `unzip_all`.
- `CommandLine`: the pattern and output arguments of `main`.
- `FileCopy`: `zotcopy`.
- `ZoteroDb` and `ZoteroApi`.

## Model

| member | source | states |
|---|---|---|
| ZipArchives.OpenArchive | zotunzip.py:118 | opening a path that holds no archive is an error other than `BadZipFile` |
| ZipArchives.FirstCorruptIndex | zotunzip.py:120-124 | `testzip` finds nothing exactly when every member reads back; otherwise it names the first member that does not |
| ZipArchives.PermissionBits | zotunzip.py:230-231 | the mode taken from the external attributes is below 0o1000 (masked with 0o777) |
| ZipArchives.PermissionBitsOfUnixAttr | zotunzip.py:230 | for attributes holding a Unix mode in the upper half, the mask yields exactly its nine permission bits, whatever the file-type bits above and the MS-DOS bits below |
| Strings.Lower | zotcopy.py:26 | `str.lower()` keeps the length, maps each character, and leaves no upper-case letter |
| Strings.Strip | zotapi.py:50 | the result is a slice `s[i..j]` of the input with only whitespace before `i` and after `j`, and it neither starts nor ends with whitespace |
| Strings.FindChar | zotapi.py:52 | the first `=` is found exactly when there is one, and no `=` comes before it |
| Strings.JoinEndsWithLast | zotdb.py:75 | a join ends with its last part |
| Strings.DecimalString | zotunzip.py:90 | every part number has a decimal spelling, all digits, that `int()` reads back as the number |
| Strings.ContainsAfterPrefix | zotunzip.py:282 | "Skipped" occurs in `Extracted: <name>` exactly when it occurs in the name |
| Sorting.SortByFacts | zotunzip.py:102 | the sort by key orders its output by key and is a permutation of its input |
| Sorting.SortByStable | zotcopy.py:50 | the sort is stable: elements with equal keys keep their relative order |
| Sorting.SortBySorted | zotcopy.py:72-73 | sorting a list already in key order leaves it unchanged |
| Sorting.SortByMap | zotunzip.py:102 | sorting part records and then projecting them is projecting and then sorting |
| Paths.Normalize | zotunzip.py:194 | lexical `resolve()` yields a resolved path (no empty, `.` or `..` segment) |
| Paths.NormalizeDescends | zotunzip.py:194 | resolving a relative path without `..` keeps the base directory as a prefix |
| Paths.PathStringExtends | zotunzip.py:195 | a path below a directory has that directory's string as a prefix of its own |
| Paths.PartsOfPathString | zotunzip.py:516-531 | the string of a resolved path parses back to the same segments |
| Paths.NormalizeProper | zotunzip.py:194 | resolving proper names below a base appends them to it |
| Paths.ExpandUser | zotunzip.py:516 | `~` becomes the home directory and a path not starting with `~` is unchanged |
| FileSystems.MakeDirsOk | zotunzip.py:210 | a successful `mkdir -p` leaves a directory at the path, keeps every existing node, and adds only directories on the way to the path |
| FileSystems.MakeDirsFails | zotunzip.py:210 | `mkdir -p` fails exactly when some prefix of the path is a regular file |
| FileSystems.MakeDirsValid | zotunzip.py:210 | `mkdir -p` keeps every node below a directory |
| FileSystems.MakeDirsExisting | zotunzip.py:215 | `mkdir -p` of an existing directory changes nothing (`exist_ok=True`) |
| FileSystems.DirAncestors | zotunzip.py:210 | every ancestor of a directory is a directory |
| FileSystems.FileSystem.constructor | zotunzip.py:397-398 | the filesystem starts from the given tree |
| FileSystems.FileSystem.MkdirAll | zotunzip.py:210 | the new tree is the `mkdir -p` result, or the tree is unchanged and the error is reported |
| FileSystems.FileSystem.CreateTemp | zotunzip.py:218-221 | the temporary file is a fresh empty `.tmp` file of mode 0o600 in the given directory, and nothing else changes |
| FileSystems.FileSystem.WriteMember | zotunzip.py:223-224 | copying an intact member gives the file the member's size; a corrupt member raises and changes nothing |
| FileSystems.FileSystem.Replace | zotunzip.py:227 | the rename fails without change onto a directory or into a missing directory, and otherwise moves the file over the destination |
| FileSystems.FileSystem.Chmod | zotunzip.py:233 | only the file's mode changes |
| FileSystems.FileSystem.Unlink | zotunzip.py:237-238 | only the file is removed |
| ZipParts.ZipFileInfo.constructor | zotunzip.py:39-46 | a new part record has the given path, number and size, is valid and has no error message |
| ZipParts.PartNameMatches | zotunzip.py:59-63 | the prefix, then digits, then `.zip` (prefix and extension in any case, optionally followed by one newline, which `$` accepts) matches with the digits' value as part number |
| ZipParts.MatchIsLiteral | zotunzip.py:59-63 | a matching name starts with the prefix read literally (in some case), then a run of digits whose value is the part number |
| ZipParts.MatchesMembers | zotunzip.py:84-96 | a part is collected exactly when some listing entry is a regular file whose name matches |
| ZipParts.CatalogSpec | zotunzip.py:80-102 | the result holds exactly the regular files whose names match, with their part numbers, sorted ascending and stable, as a permutation of the collected parts |
| ZipParts.FindZipFiles | zotunzip.py:66-104 | the returned records are fresh, valid, and describe the catalogue; a missing directory gives none |
| ZipParts.ScanEntry | zotunzip.py:84-96 | one listing entry appends a fresh valid record exactly when it is a regular file whose name matches |
| ZipParts.SortedCatalog | zotunzip.py:102 | sorting the collected records by part number gives the catalogue and adds no record |
| ZipParts.Min | zotunzip.py:153 | the lowest part number is one of them and no larger than any |
| ZipParts.Max | zotunzip.py:154 | the highest part number is one of them and no smaller than any |
| ZipParts.MissingBetween | zotunzip.py:155-160 | the missing numbers are exactly those in [lo, hi] that are not part numbers, strictly ascending |
| ZipParts.ContinuitySpec | zotunzip.py:149-162 | no parts is never continuous; otherwise the result is continuous exactly when every integer between the lowest and highest number is present; gaps are reported sorted and non-empty |
| ZipParts.ContinuityExamples | zotunzip.py:149-162 | parts 1, 2, 4 miss 3; parts 1, 2, 3 are complete from 1 to 3; no parts is reported as such |
| ZipParts.ValidationError | zotunzip.py:117-136 | every validation failure carries a non-empty message |
| ZipParts.ValidationSpec | zotunzip.py:117-136 | an archive validates exactly when it opens as a ZIP file and every member reads back |
| ZipParts.ValidateZipFile | zotunzip.py:107-136 | never fails; the result equals the recorded `isValid`, holds exactly when the archive validates, and a failure records its message |
| SafeExtract.ResolvedTarget | zotunzip.py:194 | the member's target is a resolved path |
| SafeExtract.SafeExtractMember | zotunzip.py:165-244 | the outcome and the new filesystem are those of the extraction specification |
| SafeExtract.WriteMemberTarget | zotunzip.py:213-244 | a directory member is made with `mkdir -p`; a file member goes through the file branch |
| SafeExtract.WriteFileMember | zotunzip.py:217-239 | a corrupt member or a directory at the target fails with the tree restored (temporary file removed); otherwise the target is the member's size with its final mode |
| SafeExtract.TempRemoved | zotunzip.py:235-238 | removing a temporary file that was not there before restores the tree |
| SafeExtract.TempRenamed | zotunzip.py:227 | renaming the temporary file over the target leaves no trace of the temporary name |
| SafeExtract.UnsafeNamesRejected | zotunzip.py:189-198 | an absolute name, a name that cannot be resolved, or a target whose string does not start with the target directory's string fails with no change |
| SafeExtract.ExistingFilePolicy | zotunzip.py:201-207 | without overwrite, an existing regular file at the target is kept: success with the "Skipped" message exactly when the sizes are equal |
| SafeExtract.ExtractFrame | zotunzip.py:165-244 | a refused member changes nothing; otherwise only the target and directories on its way change and no temporary file is left |
| SafeExtract.SuccessMeans | zotunzip.py:201-241 | a success either kept an equal-size existing file or left the member at the target (a directory, or a file with the member's size and final mode) |
| SafeExtract.FailureKeepsTarget | zotunzip.py:235-244 | a failure or an escaped exception leaves the target as it was |
| SafeExtract.ExtractKeepsValid | zotunzip.py:165-244 | extraction keeps every node below a directory |
| SafeExtract.EscapeWhen | zotunzip.py:210 | past the checks, the exception escapes exactly when some directory above the target is a regular file, and it changes nothing |
| SafeExtract.EscapesOnParent | zotunzip.py:210 | the exception escapes exactly when making the parent directories fails |
| SafeExtract.ExistingDirFallsThrough | zotunzip.py:201-244 | an existing directory at a file member's target is not caught by the existing-target check; the write fails and nothing changes |
| SafeExtract.PlainNamesContained | zotunzip.py:192-196 | a relative name without NUL and without `..` passes the checks and lands inside the target directory |
| SafeExtract.SiblingPrefixEscapes | zotunzip.py:195 | for target directory `/r`, the member `../rs/x` passes the string-prefix test and is written to `/rs/x`, outside the target directory |
| SafeExtract.TraversalRefused | zotunzip.py:195-196 | a member climbing to a directory whose name starts differently is refused as a path traversal attempt with no change |
| SafeExtract.CheckPasses | zotunzip.py:189-196 | a relative name without NUL whose resolved string starts with the target directory's passes the checks |
| SafeExtract.ExtractFileInto | zotunzip.py:210-241 | a file member with no file at its target and creatable parents is written there |
| Restore.ExtractZipFile | zotunzip.py:247-300 | the counts and the new filesystem are those of the per-part specification |
| Restore.ExtractOne | zotunzip.py:276-290 | one member: the filesystem follows the extraction, its result is tallied, and an escaping exception adds one error and stops the part |
| Restore.MembersStep | zotunzip.py:276-298 | the member loop is the first member followed by the loop over the rest, or an abandoned part after an exception |
| Restore.TallyAddsOne | zotunzip.py:281-290 | each member adds one to exactly one counter: skipped iff success with "Skipped" in the message, extracted iff other success, errors iff failure |
| Restore.MembersTotal | zotunzip.py:276-298 | a part that runs to its end counts every member once; an abandoned part counts fewer, and an extra error |
| Restore.MembersErrorsGrow | zotunzip.py:276-298 | the error count never decreases over a part |
| Restore.SkippedCountsNames | zotunzip.py:281-285 | a success is counted as skipped exactly when the file was kept or the member's own name contains "Skipped" |
| Restore.MembersKeepValid | zotunzip.py:271-298 | a part's extraction keeps every node below a directory |
| Restore.PartRuns | zotunzip.py:431-440 | there is one run per part |
| Restore.NextPart | zotunzip.py:431-440 | the pass is the first part on the current filesystem followed by the pass over the rest on what it left, counts added |
| Restore.NoErrorsAnywhere | zotunzip.py:456-462 | the total error count is 0 exactly when every part had none |
| Restore.TotalsAreSums | zotunzip.py:427-440 | the totals are the sums of the per-part counts |
| Restore.PassKeepsValid | zotunzip.py:431-440 | the extraction pass keeps every node below a directory |
| Restore.UnzipOutcome | zotunzip.py:345-462 | `False` with no change when no part is found, a gap is declined or a part is invalid; `True` with no change for a dry run; `False` if the target directory cannot be made; otherwise the totals are the per-part sums and the result is true iff no part had an error |
| Restore.UnzipAll | zotunzip.py:303-462 | the result and the new filesystem are those of the `unzip_all` specification |
| Restore.CheckParts | zotunzip.py:343-388 | the records are the catalogue, and the run proceeds exactly when parts exist, a gap is accepted and, when validating, all parts are sound |
| Restore.ContinuityOfParts | zotunzip.py:359 | the continuity check of the records is that of their part numbers |
| Restore.ValidateAll | zotunzip.py:371-386 | every part is validated (none skipped), and all are valid exactly when no part is invalid |
| Restore.ExtractPart | zotunzip.py:434-440 | one part's counts added to the rest of the pass give the pass from that part on |
| Restore.ExtractAll | zotunzip.py:427-440 | the totals and the final filesystem are those of the extraction pass |
| CommandLine.Expanded | zotunzip.py:516 | the expanded components are non-empty names without `/`; only a `~` can make it fail |
| CommandLine.SplitPattern | zotunzip.py:515-529 | the source directory is resolved and the prefix has no `/`; it fails only for an unknown user or a NUL |
| CommandLine.ResolveOutput | zotunzip.py:531 | the output directory is resolved; it fails only for an unknown user or a NUL |
| CommandLine.SplitFullPattern | zotunzip.py:519-525 | `/dir/prefix` splits into the directory and the prefix |
| CommandLine.SplitHomePattern | zotunzip.py:519-525 | `~/prefix` is the prefix in the home directory |
| CommandLine.SplitDotPattern | zotunzip.py:519-529 | `./prefix` and a bare prefix both give the prefix in the working directory |
| CommandLine.ResolveAbsoluteOutput | zotunzip.py:531 | an absolute resolved output directory resolves to itself |
| FileCopy.LastIndex | zotcopy.py:23 | the last occurrence is found exactly when the character occurs, and none follows it |
| FileCopy.SplitExt | zotcopy.py:23 | `splitext` splits the name into stem and extension; the extension is empty or one dot followed by no dot or `/` |
| FileCopy.RunStart | zotcopy.py:25 | the trailing run starts at the only position after which every character is in the run and before which one is not |
| FileCopy.DropNumber | zotcopy.py:25 | removing the copy number leaves a prefix of the name |
| FileCopy.BaseName | zotcopy.py:26 | the base name has no upper-case letter |
| FileCopy.SplitExtAtDot | zotcopy.py:23 | `stem.ext` splits at its last dot |
| FileCopy.NoCopyNumber | zotcopy.py:25 | a name ending in neither whitespace nor a digit is unchanged |
| FileCopy.DropsCopyNumber | zotcopy.py:25 | ` <digits>` after such a name is removed |
| FileCopy.CopiesShareBaseName | zotcopy.py:14-26 | `name.ext`, `name 1.ext` and `name 123.ext` all have the base name `name`, lower-cased |
| FileCopy.Candidates | zotcopy.py:42-47 | a file is a candidate exactly when the walk found it and its name passes the extension filter; `.*` keeps every file |
| FileCopy.CollectFiles | zotcopy.py:40-47 | the collected files are the candidates in walk order |
| FileCopy.RecordFile | zotcopy.py:56-69 | one file updates the state as one de-duplication step |
| FileCopy.DedupFiles | zotcopy.py:52-69 | the final state is the de-duplication of the sorted files |
| FileCopy.DescribesStep | zotcopy.py:56-69 | one iteration keeps the loop invariant: kept files, seen base names and duplicates describe the files so far |
| FileCopy.DedupDescribes | zotcopy.py:56-69 | the de-duplication state describes the whole input |
| FileCopy.FirstsAreFirst | zotcopy.py:56-69 | every first file is the first of its base name in the input |
| FileCopy.FirstsHoldFirst | zotcopy.py:56-69 | every file no earlier file shares a base name with is among the first files |
| FileCopy.KeptCovers | zotcopy.py:56-69 | every base name of the input has a kept file |
| FileCopy.OnePerBaseName | zotcopy.py:56-69 | `files_to_copy` holds exactly one file per base name, the first (newest) in sorted order |
| FileCopy.DuplicatesAreLater | zotcopy.py:59-64 | `duplicates` is keyed by kept file names and each list is every later file of that base name, in order; a kept file with later files has a list |
| FileCopy.KeptIsSeen | zotcopy.py:59-67 | a kept file is the one recorded for its base name |
| FileCopy.DedupNonEmpty | zotcopy.py:62-64 | a duplicates list is never empty |
| FileCopy.CountBump | zotcopy.py:64 | one more sighting under one kept name adds one to the duplicate count |
| FileCopy.DedupCount | zotcopy.py:56-69 | kept files plus duplicates equal the number of candidates |
| FileCopy.LaterSorted | zotcopy.py:50-64 | in newest-first input, each duplicates list is newest first |
| FileCopy.DuplicatesAlreadySorted | zotcopy.py:72-73 | re-sorting each duplicates list changes nothing |
| FileCopy.SortDuplicates | zotcopy.py:72-73 | every duplicates list is sorted newest first and no key is added or dropped |
| FileCopy.CopyPartition | zotcopy.py:79-89 | each file to copy ends in exactly one of the copied or skipped lists, skipped with the reason its copy failed |
| FileCopy.CopyAll | zotcopy.py:78-89 | the copied and skipped lists are those of the copy specification, in order |
| FileCopy.CopyFiles | zotcopy.py:34-109 | `copy_files` returns the de-duplicated duplicates and the copy results of the newest file per base name among the filtered files sorted newest first |
| ZoteroDb.ZoteroCollection.constructor | zotdb.py:192-197 | a new collection has the row's id, key, name and parent id, no parent key and no children |
| ZoteroDb.ChildrenOf | zotdb.py:201-208 | the children of a collection are exactly the collections whose parent id names it (membership both ways) |
| ZoteroDb.ChildrenOfAppend | zotdb.py:201-208 | children are appended in map order: the children found in `a + b` are those found in `a` followed by those found in `b` |
| ZoteroDb.ChildrenOfDistinct | zotdb.py:201-208 | over distinct collections, no collection appears twice in one children list |
| ZoteroDb.OneParentList | zotdb.py:201-208 | with distinct collection ids, a collection sits in at most one collection's children list |
| ZoteroDb.BuildCollectionsMap | zotdb.py:180-210 | one fresh collection per row, keyed by id; a collection has its parent's key iff its parent is in the map; children are the collections pointing at it, in map order |
| ZoteroDb.LinkCollections | zotdb.py:200-208 | after the linking pass, parent keys and children are as above |
| ZoteroDb.LinkOne | zotdb.py:201-208 | one round links one more collection |
| ZoteroDb.PathNames | zotdb.py:70-74 | the path names end with the collection's own name |
| ZoteroDb.PathNamesBound | zotdb.py:72 | the path does not depend on the bound on the climb |
| ZoteroDb.GetFullPath | zotdb.py:68-75 | the loop's result is the collection's full path |
| ZoteroDb.FullPathShape | zotdb.py:68-75 | the full path ends with the name; no parent or a dangling parent gives just the name; otherwise it is the parent's full path, ` / `, then the name |
| ZoteroDb.Roots | zotdb.py:212-220 | the roots are exactly the collections without a parent id (membership both ways) |
| ZoteroDb.RootsAppend | zotdb.py:220 | roots keep map order: the roots of `a + b` are those of `a` followed by those of `b` |
| ZoteroDb.RootsDistinct | zotdb.py:220 | over distinct collections, no root is listed twice |
| ZoteroDb.OrphanHidden | zotdb.py:201-220 | a collection whose parent is missing from the map is neither a root nor anyone's child |
| ZoteroDb.Collections | zotdb.py:222-237 | one entry per collection with its id, name, keys, parent id, full path, and children count equal to its number of children |
| ZoteroDb.CollectionsAfterBuild | zotdb.py:226-237 | after linking, the children count is the number of collections naming it as parent, and the parent key is set iff the parent is in the map |
| ZoteroDb.ChildrenCount | zotdb.py:234 | the number of children is the number of collections pointing at the collection |
| ZoteroDb.FindCollection | zotdb.py:335-343 | nothing is found exactly when no collection has the key; otherwise the first collection in map order with the key |
| ZoteroDb.LinkedChildrenPointBack | zotdb.py:201-208 | after linking, every child is in the map and points back at its parent |
| ZoteroDb.DescendantsPreOrder | zotdb.py:350-355 | the descendants come in pre-order: each one's parent is the start or an earlier descendant |
| ZoteroDb.DescendantsComplete | zotdb.py:350-355 | the descendants include the children they start from and every child of every descendant |
| ZoteroDb.CollectionIds | zotdb.py:335-357 | an unknown key gives no ids; otherwise the first matching collection's id, followed, with subcollections, by its descendants' ids in pre-order; only with subcollections, and only for the matched collection, must the chains of children below it be finite |
| ZoteroDb.StripStorage | zotdb.py:473-476 | a path starting with `storage:` loses exactly that prefix; any other path or no path is unchanged |
| ZoteroDb.StripStorageInverse | zotdb.py:475-476 | stripping `storage:` from `storage:<p>` gives `<p>` |
| ZoteroDb.LocalZoteroItem.constructor | zotdb.py:79-90 | a new item has its id, key and type, and empty text fields |
| ZoteroDb.LastValue | zotdb.py:403-416 | a field no row names keeps its value; otherwise it takes the value of the last row naming it |
| ZoteroDb.PopulateItemData | zotdb.py:389-416 | title, date, abstract, DOI and url each take the value of the last row for their field, or keep their value |
| ZoteroDb.ApplyRow | zotdb.py:404-416 | one row sets only the field its name selects |
| ZoteroDb.LastValueSnoc | zotdb.py:403-416 | one more row updates a field as one more loop iteration does |
| ZoteroDb.LastValueAppend | zotdb.py:403-416 | two batches of rows act as one after the other |
| ZoteroApi.KeyValue | zotapi.py:52-53 | the key has no `=` and no upper-case letter, and the value is stripped |
| ZoteroApi.ParseLine | zotapi.py:50-53 | a line contributes iff, stripped, it is non-empty, has `=` and does not start with `#`; the key is lower-case without `=`, the value stripped |
| ZoteroApi.StripTwice | zotapi.py:50-53 | stripping is idempotent |
| ZoteroApi.KeysOfSnoc | zotapi.py:49-53 | one more line sets its key or changes nothing |
| ZoteroApi.KeysOfLastWins | zotapi.py:49-53 | the keys are those of the accepted lines, and each holds the value of the last line setting it |
| ZoteroApi.KeysOfKeys | zotapi.py:49-53 | a key is present exactly when some accepted line sets it |
| ZoteroApi.KeysOfLast | zotapi.py:49-53 | each key's value is that of the last line setting it |
| ZoteroApi.LoadKeysFile | zotapi.py:44-54 | a missing file gives no keys; otherwise the dictionary its lines build |
| ZoteroApi.ReadLine | zotapi.py:50-53 | one line sets its key or leaves the dictionary unchanged |
| ZoteroApi.ParseLineInverse | zotapi.py:50-53 | `key=value` reads back as the key and the value, even when the value has `=` |
| ZoteroApi.SplitsAtKey | zotapi.py:52 | the line splits at the first `=` |
| ZoteroApi.ReadKeysLine | zotapi.py:49-53 | appending `key=value` sets the key to the value whatever came before |
| ZoteroApi.FromEnv | zotapi.py:86-98 | loads iff the library id and API key are set and non-empty, with those values; the library type defaults to `user`; otherwise `ValueError` |
| ZoteroApi.FromKeys | zotapi.py:101-130 | fails iff the `zotero` key is missing or empty; the library id comes from the file, else from discovery, else fails; the type defaults to `user` |
| ZoteroApi.AutoLoad | zotapi.py:133-140 | the keys file, when present, wins over the environment |
| ZoteroApi.ConfigRoundTrip | zotapi.py:101-130 | the keys a configuration is written as load back as that configuration |
| ZoteroApi.AttachmentFromItem | zotapi.py:157-172 | an attachment exactly when the item type is `attachment`; absent text fields are `""` and an absent parent is `None` |
| ZoteroApi.AttachmentRoundTrip | zotapi.py:157-172 | an attachment's payload reads back as it, and another item type gives nothing |
| ZoteroApi.TagsOf | zotapi.py:206 | the tags are each tag object's `tag`, `""` when absent, in order |
| ZoteroApi.CreatorsOf | zotapi.py:201 | the creators are kept as given, one per entry |
| ZoteroApi.ItemFromItem | zotapi.py:193-209 | each field is read from its own key of `data` (the abstract from `abstractNote`, the DOI from `DOI`) with default `""`, or `[]` for creators, tags and collections; one creator per entry; one tag per entry, its `tag` value or `""`; the raw data is `data` itself |
| ZoteroApi.ItemTags | zotapi.py:206 | tag objects `{"tag": n}` give exactly the names, in order |
| ZoteroApi.AuthorName | zotapi.py:215-220 | a listed name is non-empty and belongs to a creator of type `author` |
| ZoteroApi.Authors | zotapi.py:213-220 | at most one non-empty name per creator |
| ZoteroApi.GetAuthorsString | zotapi.py:211-221 | the result is the author names joined by `, ` |
| ZoteroApi.AuthorsAppend | zotapi.py:214-220 | the names of two runs of creators are the names of the first followed by those of the second |
| ZoteroApi.NoAuthors | zotapi.py:215 | creators that are not authors contribute nothing |
| ZoteroApi.AuthorNames | zotapi.py:216-218 | an author with last and first names is listed as `last first`; one with only `name` by that name |

## Left out

- Text is handled in ASCII: the character classes of `\s`, `\d`, `str.lower()` and IGNORECASE are their ASCII subsets, and there is no Unicode case folding or normalisation.
- Symbolic links are not modelled: `resolve()` is lexical normalisation, and `..` removes the previous segment.
- ZIP decompression and CRC checking are not modelled. The archive reader is an oracle giving each member's name, size, attributes and whether its data reads back intact.
- Filesystem permission errors, ownership, timestamps and free space are not modelled. The filesystem is a map from paths to nodes.
- The disk-space check of `unzip_all` and its prompt (zotunzip.py:404-420) are left out. They rely on OS queries and floating-point sizes.
- The logging, the progress lines and the `verbose` flag are left out. The summary lines are also left out.
- The answer to the "Continue anyway?" prompt for a gap is the parameter `continueOnGap`.
- Argument parsing and the exit status of `main` are left out. The working directory and the home directories are parameters.
- The name of the temporary file is chosen by the model (any fresh `.tmp` name in the target's parent), not by `tempfile`'s random generator.
- Error messages of the operating system are fixed strings such as "File exists" and "Bad CRC-32". The text of other exceptions is not modelled.
- In `zotcopy`:
  - the directory walk (`os.walk`), `getmtime`, `rmtree`, `makedirs` and `copy2` are inputs or left out;
  - the outcome of each copy is a map from source path to failure reason;
  - the thread pool and its timeout are not modelled;
  - modification times are integers rather than floats;
  - printing is left out.
- In `zotdb`:
  - SQLite queries, the database copy, the default path discovery, `get_attachment_path` and `print_collection_tree` are left out;
  - the rows of each query are inputs;
  - creators, tags, attachments and collection lists of `LocalZoteroItem` are not modelled.
- ZoteroDb.GetFullPath: on a cycle of parent ids the source loops forever. The model requires `Ends` (the climb ends within `n` steps), so cyclic data is outside the model.
- ZoteroDb.CollectionIds: below a cycle of parent ids, `get_descendant_ids` recurses until Python raises `RecursionError`, which leaves `get_items_in_collection`. With subcollections the model requires `Bounded` (chains of children no longer than `n`) of the matched collection, so that error path is not modelled; without subcollections nothing is required, as the source does not recurse.
- ZoteroDb.ChildrenOf: its own contract states membership both ways; map order and the absence of repeats are the lemmas `ChildrenOfAppend` and `ChildrenOfDistinct`.
- ZoteroDb.Roots: its own contract states membership both ways; map order and the absence of repeats are the lemmas `RootsAppend` and `RootsDistinct`.
- In `zotapi`:
  - HTTP calls, pyzotero, downloads, searches and the JSON export are left out;
  - the library id that `get_library_id_from_api_key` would discover is the parameter `discovered`;
  - reading the keys file is a sequence of lines, or `None` for a missing file.
- ZoteroApi.AttachmentFromItem: requires `data`, when present, to be an object. The source would raise on another type, and that error is not modelled.
- ZoteroApi.ItemFromItem: requires `WellShaped`. Its tags half follows the source: `from_item` iterates `tags` and calls `.get` on each entry, so a non-list or a non-object entry raises there (an empty string or empty object, which Python iterates without error, is excluded too). Its creators half is a modelling restriction: `from_item` stores `creators` as given, and the model types them as objects of strings because `get_authors_string` reads them.
- ZoteroApi.GetAuthorsString: creators are maps of strings, so `str()` formatting of non-string values is not modelled.
- ZoteroApi.Authors: the contract bounds the count and rules out empty names. The exact list is stated by AuthorsAppend, NoAuthors and AuthorNames.
