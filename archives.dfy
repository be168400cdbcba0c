/** The archive reader as an oracle: what `zipfile.ZipFile(path)` finds at a path.
    Decompression and CRC checking are not modelled; each member says whether
    reading its data succeeds. */
module ZipArchives {
  import opened Strings

  /** A 32-bit unsigned field of the ZIP central directory. */
  type U32 = x: nat | x < 0x1_0000_0000

  /** One `zipfile.ZipInfo`: its declared name, its declared uncompressed size, its
      external file attributes (section 4.4.15 of the PKWARE APPNOTE), and whether its
      data reads back without a CRC or structure error. */
  datatype Member = Member(filename: string, fileSize: nat, externalAttr: U32, intact: bool)

  /** `ZipInfo.is_dir()`: the declared name ends with a slash. */
  predicate IsDir(m: Member) {
    |m.filename| > 0 && m.filename[|m.filename| - 1] == '/'
  }

  /** What opening a path as a ZIP file gives: its members in central-directory
      order, or the `BadZipFile` error, or any other error (missing file, I/O). */
  datatype Archive =
    | Readable(members: seq<Member>)
    | BadZip(reason: string)
    | Unreadable(reason: string)

  type Archives = map<string, Archive>

  const MissingFileReason := "No such file or directory"

  function OpenArchive(archives: Archives, path: string): (a: Archive)
    ensures path !in archives ==> a.Unreadable?
  {
    if path in archives then archives[path] else Unreadable(MissingFileReason)
  }

  /** Index of the first member whose data does not read back. */
  function FirstCorruptIndex(members: seq<Member>): (r: Option<nat>)
    ensures r.None? <==> forall i :: 0 <= i < |members| ==> members[i].intact
    ensures r.Some? ==> r.value < |members| && !members[r.value].intact
                        && forall j :: 0 <= j < r.value ==> members[j].intact
  {
    if |members| == 0 then None
    else if !members[0].intact then Some(0)
    else match FirstCorruptIndex(members[1..])
      case None => None
      case Some(k) => Some(k + 1)
  }

  /** `ZipFile.testzip()`: the name of the first member whose data does not read back. */
  function TestZip(members: seq<Member>): Option<string>
  {
    match FirstCorruptIndex(members)
    case None => None
    case Some(k) => Some(members[k].filename)
  }

  /** The Unix permission bits stored in the upper half of the external attributes
      (the Info-ZIP convention), masked as `(external_attr >> 16) & 0o777`. */
  function PermissionBits(attr: U32): (mode: nat)
    ensures mode < 0x200
  {
    (attr / 0x1_0000) % 0x200
  }

  /** The mask picks out exactly the nine permission bits of a Unix mode stored
      in the upper half: neither the file type and set-id bits above them nor
      the MS-DOS attributes in the lower half leak in. */
  lemma PermissionBitsOfUnixAttr(high: nat, mode: nat, low: nat)
    requires high < 0x80 && mode < 0x200 && low < 0x1_0000
    ensures (high * 0x200 + mode) * 0x1_0000 + low < 0x1_0000_0000
    ensures PermissionBits((high * 0x200 + mode) * 0x1_0000 + low) == mode
  {
    var upper := high * 0x200 + mode;
    var attr := upper * 0x1_0000 + low;
    assert upper < 0x1_0000;
    assert attr / 0x1_0000 == upper;
    assert upper % 0x200 == mode;
  }
}
