/** The offline half of the Zotero web API client: reading the `.keys` file,
    building the connection settings, and turning the API's JSON items into
    attachments and items. The HTTP calls themselves are not modelled; the
    library id the API would discover is a parameter. */
module ZoteroApi {
  import opened Strings

  // ----- The .keys file -----

  /** A stripped `.keys` line contributes when it is not empty, has an `=` and
      is not a `#` comment. */
  predicate Contributes(l: string) {
    l != "" && '=' in l && !StartsWith(l, "#")
  }

  /** A contributing line splits at its first `=`: the key stripped and
      lower-cased, the value stripped. */
  function KeyValue(l: string): (r: (string, string))
    requires '=' in l
    ensures '=' !in r.0 && forall i :: 0 <= i < |r.0| ==> !IsUpper(r.0[i])
    ensures Strip(r.1) == r.1
  {
    var i := FindChar(l, '=').value;
    StripTwice(l[i + 1..]);
    StripKeepsOut(l[..i]);
    (Lower(Strip(l[..i])), Strip(l[i + 1..]))
  }

  /** The key and value a `.keys` line contributes, if any. */
  function ParseLine(line: string): (r: Option<(string, string)>)
    ensures r.Some? <==> Contributes(Strip(line))
    ensures r.Some? ==> '=' !in r.value.0 && (forall i :: 0 <= i < |r.value.0| ==> !IsUpper(r.value.0[i]))
    ensures r.Some? ==> Strip(r.value.1) == r.value.1
  {
    var l := Strip(line);
    if Contributes(l) then Some(KeyValue(l)) else None
  }

  /** A stripped string strips to itself. */
  lemma StripTwice(s: string)
    ensures Strip(Strip(s)) == Strip(s)
  {
    var r := Strip(s);
    if r != [] {
      assert StripStart(r) == r;
      assert StripEnd(r) == r;
    }
  }

  lemma StripKeepsOut(s: string)
    requires '=' !in s
    ensures '=' !in Lower(Strip(s))
  {
    var t := StripStart(s);
    assert t == s[|s| - |t|..];
    var r := StripEnd(t);
    assert r == t[..|r|];
  }

  /** A string with no space at either end strips to itself. */
  lemma StripProper(s: string)
    requires s == [] || (!IsSpace(s[0]) && !IsSpace(s[|s| - 1]))
    ensures Strip(s) == s
  {
  }

  lemma LowerOfLower(s: string)
    requires forall i :: 0 <= i < |s| ==> !IsUpper(s[i])
    ensures Lower(s) == s
  {
  }

  /** The dictionary the lines build: each line `parse` accepts sets its key. */
  function KeysOf(lines: seq<string>, parse: string -> Option<(string, string)>): map<string, string>
    decreases |lines|
  {
    if |lines| == 0 then map[]
    else
      var m := KeysOf(lines[..|lines| - 1], parse);
      match parse(lines[|lines| - 1])
      case None => m
      case Some((k, v)) => m[k := v]
  }

  lemma KeysOfSnoc(lines: seq<string>, i: nat, parse: string -> Option<(string, string)>)
    requires i < |lines|
    ensures KeysOf(lines[..i + 1], parse)
            == if parse(lines[i]).Some? then KeysOf(lines[..i], parse)[parse(lines[i]).value.0 := parse(lines[i]).value.1]
               else KeysOf(lines[..i], parse)
  {
    assert lines[..i + 1][..i] == lines[..i];
  }

  /** Line `i` is the last line that sets `k`. */
  predicate LastFor(lines: seq<string>, parse: string -> Option<(string, string)>, k: string, i: int) {
    0 <= i < |lines| && parse(lines[i]).Some? && parse(lines[i]).value.0 == k
    && forall j :: i < j < |lines| ==> parse(lines[j]).None? || parse(lines[j]).value.0 != k
  }

  /** The keys are those of the accepted lines, and each holds the value of the
      last line that sets it. */
  lemma KeysOfLastWins(lines: seq<string>, parse: string -> Option<(string, string)>)
    ensures forall k :: k in KeysOf(lines, parse) <==>
              exists i :: 0 <= i < |lines| && parse(lines[i]).Some? && parse(lines[i]).value.0 == k
    ensures forall k :: k in KeysOf(lines, parse) ==>
              exists i :: LastFor(lines, parse, k, i) && parse(lines[i]).value.1 == KeysOf(lines, parse)[k]
  {
    KeysOfKeys(lines, parse);
    KeysOfLast(lines, parse);
  }

  lemma {:induction false} KeysOfKeys(lines: seq<string>, parse: string -> Option<(string, string)>)
    ensures forall k :: k in KeysOf(lines, parse) <==>
              exists i :: 0 <= i < |lines| && parse(lines[i]).Some? && parse(lines[i]).value.0 == k
    decreases |lines|
  {
    if |lines| > 0 {
      var init := lines[..|lines| - 1];
      KeysOfKeys(init, parse);
      assert forall i :: 0 <= i < |init| ==> init[i] == lines[i];
    }
  }

  lemma {:induction false} KeysOfLast(lines: seq<string>, parse: string -> Option<(string, string)>)
    ensures forall k :: k in KeysOf(lines, parse) ==>
              exists i :: LastFor(lines, parse, k, i) && parse(lines[i]).value.1 == KeysOf(lines, parse)[k]
    decreases |lines|
  {
    if |lines| > 0 {
      var init := lines[..|lines| - 1];
      var last := |lines| - 1;
      KeysOfLast(init, parse);
      var m := KeysOf(init, parse);
      var r := KeysOf(lines, parse);
      forall k | k in r
        ensures exists i :: LastFor(lines, parse, k, i) && parse(lines[i]).value.1 == r[k]
      {
        if parse(lines[last]).Some? && parse(lines[last]).value.0 == k {
          assert LastFor(lines, parse, k, last);
        } else {
          assert k in m;
          var i :| LastFor(init, parse, k, i) && parse(init[i]).value.1 == m[k];
          assert init[i] == lines[i];
          assert LastFor(lines, parse, k, i);
        }
      }
    }
  }

  /** `load_keys_file`: a missing file gives no keys; otherwise its lines are
      read in order into the dictionary. */
  method LoadKeysFile(file: Option<seq<string>>) returns (keys: map<string, string>)
    ensures file.None? ==> keys == map[]
    ensures file.Some? ==> keys == KeysOf(file.value, ParseLine)
  {
    keys := map[];
    if file.None? {
      return;
    }
    var lines := file.value;
    var i := 0;
    while i < |lines|
      invariant 0 <= i <= |lines|
      invariant keys == KeysOf(lines[..i], ParseLine)
    {
      KeysOfSnoc(lines, i, ParseLine);
      keys := ReadLine(keys, lines[i]);
      i := i + 1;
    }
    assert lines[..i] == lines;
  }

  /** The body of the reading loop: one line into the dictionary. */
  method ReadLine(keys: map<string, string>, line: string) returns (updated: map<string, string>)
    ensures updated == if ParseLine(line).Some? then keys[ParseLine(line).value.0 := ParseLine(line).value.1] else keys
  {
    var l := Strip(line);
    if Contributes(l) {
      var kv := KeyValue(l);
      assert ParseLine(line) == Some(kv);
      updated := keys[kv.0 := kv.1];
    } else {
      assert ParseLine(line) == None;
      updated := keys;
    }
  }

  /** A key that is already lower-case and trimmed, with no `=` and not
      starting with `#`. */
  predicate ProperKey(k: string) {
    k != "" && '=' !in k && k[0] != '#' && !IsSpace(k[0]) && !IsSpace(k[|k| - 1])
    && forall i :: 0 <= i < |k| ==> !IsUpper(k[i])
  }

  /** `key=value` reads back as the key and the value, even when the value
      holds further `=` signs. */
  lemma ParseLineInverse(k: string, v: string)
    requires ProperKey(k) && (v == [] || (!IsSpace(v[0]) && !IsSpace(v[|v| - 1])))
    ensures ParseLine(KeysLine(k, v)) == Some((k, v))
  {
    var line := KeysLine(k, v);
    assert line[0] == k[0];
    assert line[|line| - 1] == if v == [] then '=' else v[|v| - 1];
    StripProper(line);
    assert line[|k|] == '=';
    assert Contributes(line);
    SplitsAtKey(k, v);
  }

  lemma SplitsAtKey(k: string, v: string)
    requires ProperKey(k) && (v == [] || (!IsSpace(v[0]) && !IsSpace(v[|v| - 1])))
    ensures KeyValue(k + "=" + v) == (k, v)
  {
    var line := k + "=" + v;
    FirstEquals(k, v);
    assert line[..|k|] == k;
    assert line[|k| + 1..] == v;
    StripProper(k);
    StripProper(v);
    LowerOfLower(k);
  }

  lemma FirstEquals(k: string, v: string)
    requires '=' !in k
    ensures FindChar(k + "=" + v, '=') == Some(|k|)
  {
    var line := k + "=" + v;
    assert line[|k|] == '=';
    assert line[..|k|] == k;
    assert forall j :: 0 <= j < |k| ==> line[j] != '=';
  }

  // ----- Connection settings -----

  datatype Config = Config(libraryId: string, apiKey: string, libraryType: string)

  /** The `ValueError`s of the two constructors. */
  datatype ConfigError = MissingEnvironment | MissingApiKey | NoLibraryId

  datatype Loaded = Loaded(config: Config) | Failed(error: ConfigError)

  /** A value the source tests for truth: present and not empty. */
  predicate Given(m: map<string, string>, k: string) {
    k in m && m[k] != ""
  }

  /** `ZoteroConfig.from_env`: the library id and API key must both be set and
      non-empty; the library type defaults to `user`, and an empty one is kept. */
  function FromEnv(env: map<string, string>): (r: Loaded)
    ensures r.Loaded? <==> Given(env, "ZOTERO_LIBRARY_ID") && Given(env, "ZOTERO_API_KEY")
    ensures r.Failed? ==> r.error == MissingEnvironment
    ensures r.Loaded? ==>
              r.config.libraryId == env["ZOTERO_LIBRARY_ID"] && r.config.apiKey == env["ZOTERO_API_KEY"]
              && r.config.libraryId != "" && r.config.apiKey != ""
    ensures r.Loaded? && "ZOTERO_LIBRARY_TYPE" !in env ==> r.config.libraryType == "user"
    ensures r.Loaded? && "ZOTERO_LIBRARY_TYPE" in env ==> r.config.libraryType == env["ZOTERO_LIBRARY_TYPE"]
  {
    if !Given(env, "ZOTERO_LIBRARY_ID") || !Given(env, "ZOTERO_API_KEY") then Failed(MissingEnvironment)
    else
      var libraryType := if "ZOTERO_LIBRARY_TYPE" in env then env["ZOTERO_LIBRARY_TYPE"] else "user";
      Loaded(Config(env["ZOTERO_LIBRARY_ID"], env["ZOTERO_API_KEY"], libraryType))
  }

  /** `ZoteroConfig.from_keys_file` on the keys already read: the `zotero` key
      is required; a missing or empty `zotero_library_id` falls back to the id
      the API key discovers (`discovered`, the result of the HTTP lookup),
      and failing that the load fails. */
  function FromKeys(keys: map<string, string>, discovered: Option<string>): (r: Loaded)
    ensures r == Failed(MissingApiKey) <==> !Given(keys, "zotero")
    ensures Given(keys, "zotero") && Given(keys, "zotero_library_id") ==>
              r.Loaded? && r.config.libraryId == keys["zotero_library_id"]
    ensures Given(keys, "zotero") && !Given(keys, "zotero_library_id") ==>
              (r.Loaded? <==> discovered.Some? && discovered.value != "")
              && (r.Loaded? ==> r.config.libraryId == discovered.value)
              && (r.Failed? ==> r.error == NoLibraryId)
    ensures r.Loaded? ==> r.config.apiKey == keys["zotero"] && r.config.apiKey != "" && r.config.libraryId != ""
    ensures r.Loaded? ==>
              r.config.libraryType == if "zotero_library_type" in keys then keys["zotero_library_type"] else "user"
  {
    if !Given(keys, "zotero") then Failed(MissingApiKey)
    else
      var libraryId :=
        if Given(keys, "zotero_library_id") then Some(keys["zotero_library_id"])
        else if discovered.Some? && discovered.value != "" then discovered
        else None;
      if libraryId.None? then Failed(NoLibraryId)
      else
        var libraryType := if "zotero_library_type" in keys then keys["zotero_library_type"] else "user";
        Loaded(Config(libraryId.value, keys["zotero"], libraryType))
  }

  /** `ZoteroConfig.auto_load`: the keys file, when there is one, wins over the
      environment. */
  function AutoLoad(file: Option<seq<string>>, env: map<string, string>, discovered: Option<string>): (r: Loaded)
    ensures file.Some? ==> r == FromKeys(KeysOf(file.value, ParseLine), discovered)
    ensures file.None? ==> r == FromEnv(env)
  {
    if file.Some? then FromKeys(KeysOf(file.value, ParseLine), discovered) else FromEnv(env)
  }

  /** Appending a `key=value` line to a keys file sets the key to the value,
      whatever came before. */
  lemma ReadKeysLine(lines: seq<string>, k: string, v: string)
    requires ProperKey(k) && (v == [] || (!IsSpace(v[0]) && !IsSpace(v[|v| - 1])))
    ensures KeysOf(lines + [KeysLine(k, v)], ParseLine) == KeysOf(lines, ParseLine)[k := v]
  {
    ParseLineInverse(k, v);
    KeysOfAppend(lines, KeysLine(k, v), ParseLine);
  }

  lemma KeysOfAppend(lines: seq<string>, line: string, parse: string -> Option<(string, string)>)
    ensures KeysOf(lines + [line], parse)
            == if parse(line).Some? then KeysOf(lines, parse)[parse(line).value.0 := parse(line).value.1]
               else KeysOf(lines, parse)
  {
    assert (lines + [line])[..|lines|] == lines;
  }

  /** The keys a configuration is written as load back as the configuration,
      from the keys file and without asking the API for the library id. */
  lemma ConfigRoundTrip(c: Config, discovered: Option<string>)
    requires c.libraryId != "" && c.apiKey != ""
    ensures FromKeys(map["zotero" := c.apiKey, "zotero_library_id" := c.libraryId, "zotero_library_type" := c.libraryType],
                     discovered)
            == Loaded(c)
  {
  }

  function KeysLine(k: string, v: string): string {
    k + "=" + v
  }

  // ----- JSON items -----

  /** A JSON value of the API's responses. */
  datatype Json = Null | Bool(b: bool) | Number(n: int) | Str(s: string) | Arr(items: seq<Json>) | Obj(fields: map<string, Json>)

  /** `dict.get(k, default)`. */
  function Get(d: map<string, Json>, k: string, default: Json): Json {
    if k in d then d[k] else default
  }

  /** The `.get` calls need `data`, when present, to be an object. */
  predicate HasDataObject(item: map<string, Json>) {
    "data" in item ==> item["data"].Obj?
  }

  function DataOf(item: map<string, Json>): map<string, Json>
    requires HasDataObject(item)
  {
    if "data" in item then item["data"].fields else map[]
  }

  /** An attachment's fields as the item carries them: the text fields default
      to the empty string, the optional ones to `None`. */
  datatype Attachment = Attachment(
    key: Json, title: Json, filename: Json, contentType: Json, linkMode: Json,
    parentKey: Json, md5: Json, mtime: Json)

  /** `ZoteroAttachment.from_item`: nothing unless the item's type is
      `attachment`. */
  function AttachmentFromItem(item: map<string, Json>): (r: Option<Attachment>)
    requires HasDataObject(item)
    ensures r.Some? <==> "data" in item && "itemType" in DataOf(item) && DataOf(item)["itemType"] == Str("attachment")
    ensures r.Some? ==> forall k :: k in ["key", "title", "filename", "contentType", "linkMode"] && k !in DataOf(item) ==>
              Text(r.value, k) == Str("")
    ensures r.Some? && "parentItem" !in DataOf(item) ==> r.value.parentKey == Null
  {
    var data := DataOf(item);
    if Get(data, "itemType", Null) != Str("attachment") then None
    else
      Some(Attachment(
        Get(data, "key", Str("")), Get(data, "title", Str("")), Get(data, "filename", Str("")),
        Get(data, "contentType", Str("")), Get(data, "linkMode", Str("")),
        Get(data, "parentItem", Null), Get(data, "md5", Null), Get(data, "mtime", Null)))
  }

  /** An attachment's text field by its JSON name. */
  function Text(a: Attachment, k: string): Json {
    match k
    case "key" => a.key
    case "title" => a.title
    case "filename" => a.filename
    case "contentType" => a.contentType
    case "linkMode" => a.linkMode
    case _ => Null
  }

  /** The item the API sends for an attachment. */
  function AttachmentPayload(a: Attachment): map<string, Json> {
    map["data" := Obj(map[
      "itemType" := Str("attachment"), "key" := a.key, "title" := a.title, "filename" := a.filename,
      "contentType" := a.contentType, "linkMode" := a.linkMode, "parentItem" := a.parentKey,
      "md5" := a.md5, "mtime" := a.mtime])]
  }

  /** Reading an attachment back from its payload gives the attachment, and any
      item of another type gives nothing. */
  lemma AttachmentRoundTrip(a: Attachment, item: map<string, Json>, itemType: Json)
    requires HasDataObject(item) && itemType != Str("attachment")
    ensures AttachmentFromItem(AttachmentPayload(a)) == Some(a)
    ensures AttachmentFromItem(map["data" := Obj(DataOf(item)["itemType" := itemType])]) == None
  {
  }

  /** A creator entry: the API's creators are objects of strings. */
  type Creator = map<string, string>

  /** A library item; `creators` keeps the API's objects. */
  datatype Item = Item(
    key: Json, itemType: Json, title: Json, creators: seq<Creator>, date: Json, abstractNote: Json,
    url: Json, doi: Json, tags: seq<Json>, collections: Json, rawData: map<string, Json>)

  /** The payload shapes the model reads: a list of tag objects, which
      `from_item` iterates, and a list of creator objects of strings, which
      `from_item` stores as given and `get_authors_string` reads. */
  predicate WellShaped(data: map<string, Json>) {
    (var tags := Get(data, "tags", Arr([])); tags.Arr? && forall i :: 0 <= i < |tags.items| ==> tags.items[i].Obj?)
    && (var cs := Get(data, "creators", Arr([]));
        cs.Arr? && forall i :: 0 <= i < |cs.items| ==> CreatorObject(cs.items[i]))
  }

  predicate CreatorObject(j: Json) {
    j.Obj? && forall k :: k in j.fields ==> j.fields[k].Str?
  }

  function CreatorOf(j: Json): (c: Creator)
    requires CreatorObject(j)
    ensures c.Keys == j.fields.Keys && forall k :: k in c ==> j.fields[k] == Str(c[k])
  {
    map k | k in j.fields :: j.fields[k].s
  }

  /** The `tag` of each tag object, `""` where it has none, in the list's order. */
  function TagsOf(tags: seq<Json>): (r: seq<Json>)
    requires forall i :: 0 <= i < |tags| ==> tags[i].Obj?
    ensures |r| == |tags|
    ensures forall i :: 0 <= i < |tags| ==> r[i] == Get(tags[i].fields, "tag", Str(""))
  {
    if |tags| == 0 then [] else [Get(tags[0].fields, "tag", Str(""))] + TagsOf(tags[1..])
  }

  function CreatorsOf(cs: seq<Json>): (r: seq<Creator>)
    requires forall i :: 0 <= i < |cs| ==> CreatorObject(cs[i])
    ensures |r| == |cs| && forall i :: 0 <= i < |cs| ==> r[i] == CreatorOf(cs[i])
  {
    if |cs| == 0 then [] else [CreatorOf(cs[0])] + CreatorsOf(cs[1..])
  }

  /** `ZoteroItem.from_item`. */
  function ItemFromItem(item: map<string, Json>): (r: Item)
    requires HasDataObject(item) && WellShaped(DataOf(item))
    ensures r.rawData == DataOf(item)
    // Each field is read from its own key of `data`, with its own default.
    ensures r.key == (if "key" in DataOf(item) then DataOf(item)["key"] else Str(""))
    ensures r.itemType == (if "itemType" in DataOf(item) then DataOf(item)["itemType"] else Str(""))
    ensures r.title == (if "title" in DataOf(item) then DataOf(item)["title"] else Str(""))
    ensures r.date == (if "date" in DataOf(item) then DataOf(item)["date"] else Str(""))
    ensures r.abstractNote == (if "abstractNote" in DataOf(item) then DataOf(item)["abstractNote"] else Str(""))
    ensures r.url == (if "url" in DataOf(item) then DataOf(item)["url"] else Str(""))
    ensures r.doi == (if "DOI" in DataOf(item) then DataOf(item)["DOI"] else Str(""))
    ensures r.collections == (if "collections" in DataOf(item) then DataOf(item)["collections"] else Arr([]))
    ensures "creators" !in DataOf(item) ==> r.creators == []
    ensures "creators" in DataOf(item) ==>
              |r.creators| == |DataOf(item)["creators"].items|
              && forall i :: 0 <= i < |r.creators| ==> r.creators[i] == CreatorOf(DataOf(item)["creators"].items[i])
    // One tag per entry of `tags`, its `tag` value or "" when it has none.
    ensures "tags" !in DataOf(item) ==> r.tags == []
    ensures "tags" in DataOf(item) ==>
              |r.tags| == |DataOf(item)["tags"].items|
              && forall i :: 0 <= i < |r.tags| ==>
                   r.tags[i] == (if "tag" in DataOf(item)["tags"].items[i].fields
                                 then DataOf(item)["tags"].items[i].fields["tag"] else Str(""))
  {
    var data := DataOf(item);
    Item(
      Get(data, "key", Str("")), Get(data, "itemType", Str("")), Get(data, "title", Str("")),
      CreatorsOf(Get(data, "creators", Arr([])).items), Get(data, "date", Str("")),
      Get(data, "abstractNote", Str("")), Get(data, "url", Str("")), Get(data, "DOI", Str("")),
      TagsOf(Get(data, "tags", Arr([])).items), Get(data, "collections", Arr([])), data)
  }

  /** An item whose tags are `{"tag": name}` objects has exactly those names as
      its tags, in order. */
  lemma ItemTags(names: seq<string>)
    ensures var tags := seq(|names|, i requires 0 <= i < |names| => Obj(map["tag" := Str(names[i])]));
            var item := map["data" := Obj(map["tags" := Arr(tags)])];
            HasDataObject(item) && WellShaped(DataOf(item))
            && ItemFromItem(item).tags == seq(|names|, i requires 0 <= i < |names| => Str(names[i]))
  {
  }

  // ----- Authors -----

  /** The name `get_authors_string` lists for a creator: authors only; `last
      first` stripped, or else the `name` field; nothing when that is empty. */
  function AuthorName(c: Creator): (r: Option<string>)
    ensures r.Some? ==> r.value != "" && "creatorType" in c && c["creatorType"] == "author"
  {
    if "creatorType" !in c || c["creatorType"] != "author" then None
    else
      var last := if "lastName" in c then c["lastName"] else "";
      var first := if "firstName" in c then c["firstName"] else "";
      var name := Strip(last + " " + first);
      var name := if name == "" && "name" in c && c["name"] != "" then c["name"] else name;
      if name != "" then Some(name) else None
  }

  /** The author names of the creators, in creator order. */
  function Authors(creators: seq<Creator>): (r: seq<string>)
    ensures |r| <= |creators|
    ensures forall i :: 0 <= i < |r| ==> r[i] != ""
    decreases |creators|
  {
    if |creators| == 0 then []
    else
      var init := Authors(creators[..|creators| - 1]);
      match AuthorName(creators[|creators| - 1])
      case None => init
      case Some(name) => init + [name]
  }

  /** `ZoteroItem.get_authors_string`: the author names joined by `, `. */
  method GetAuthorsString(item: Item) returns (s: string)
    ensures s == Join(Authors(item.creators), ", ")
  {
    var authors: seq<string> := [];
    var i := 0;
    while i < |item.creators|
      invariant 0 <= i <= |item.creators|
      invariant authors == Authors(item.creators[..i])
    {
      assert item.creators[..i + 1][..i] == item.creators[..i];
      var name := AuthorName(item.creators[i]);
      if name.Some? {
        authors := authors + [name.value];
      }
      i := i + 1;
    }
    assert item.creators[..i] == item.creators;
    s := Join(authors, ", ");
  }

  /** The names of two runs of creators are the names of the first run followed
      by those of the second. */
  lemma {:induction false} AuthorsAppend(a: seq<Creator>, b: seq<Creator>)
    ensures Authors(a + b) == Authors(a) + Authors(b)
    decreases |b|
  {
    if |b| == 0 {
      assert a + b == a;
    } else {
      assert (a + b)[..|a + b| - 1] == a + b[..|b| - 1];
      AuthorsAppend(a, b[..|b| - 1]);
    }
  }

  /** Creators that are not authors contribute nothing. */
  lemma {:induction false} NoAuthors(creators: seq<Creator>)
    requires forall i :: 0 <= i < |creators| ==> "creatorType" !in creators[i] || creators[i]["creatorType"] != "author"
    ensures Authors(creators) == []
    decreases |creators|
  {
    if |creators| > 0 {
      NoAuthors(creators[..|creators| - 1]);
    }
  }

  /** An author with a last and a first name is listed as `last first`; one
      with only a `name` is listed by it. */
  lemma AuthorNames(last: string, first: string, name: string)
    requires last != "" && first != "" && !IsSpace(last[0]) && !IsSpace(first[|first| - 1])
    requires name != ""
    ensures AuthorName(map["creatorType" := "author", "lastName" := last, "firstName" := first])
            == Some(last + " " + first)
    ensures AuthorName(map["creatorType" := "author", "name" := name]) == Some(name)
  {
    LastFirstName(last, first);
    OnlyName(name);
  }

  lemma LastFirstName(last: string, first: string)
    requires last != "" && first != "" && !IsSpace(last[0]) && !IsSpace(first[|first| - 1])
    ensures AuthorName(map["creatorType" := "author", "lastName" := last, "firstName" := first])
            == Some(last + " " + first)
  {
    var full := last + " " + first;
    assert full[0] == last[0] && full[|full| - 1] == first[|first| - 1];
    StripProper(full);
  }

  lemma OnlyName(name: string)
    requires name != ""
    ensures AuthorName(map["creatorType" := "author", "name" := name]) == Some(name)
  {
    var c := map["creatorType" := "author", "name" := name];
    assert "lastName" !in c && "firstName" !in c && "" + " " + "" == " ";
    assert StripStart(" ") == StripStart("");
  }
}
