/** The configuration file types and their detection from the file name
    (Config::$formats, and the DETECT branch of Config::load in Util/Config.php). */
module Formats {
  import opened PhpStrings
  import opened PhpValues

  const Detect: int := -1
  const Properties: int := 0
  const Cnf: int := Properties
  const Json: int := 1
  const Yaml: int := 2
  const Serialized: int := 4
  const Enum: int := 5
  const Enumeration: int := Enum

  /** The types load() and save() know how to handle. */
  predicate Supported(t: int) {
    t == Properties || t == Json || t == Yaml || t == Serialized || t == Enum
  }

  /** Config::$formats: lower-case extension to type. */
  const FormatTable: map<string, int> := map[
    "properties" := Properties,
    "cnf" := Cnf,
    "conf" := Cnf,
    "config" := Cnf,
    "json" := Json,
    "js" := Json,
    "yml" := Yaml,
    "yaml" := Yaml,
    "sl" := Serialized,
    "serialize" := Serialized,
    "txt" := Enum,
    "list" := Enum,
    "enum" := Enum
  ]

  /** The path with its trailing '/' characters removed. */
  function StripSlashes(p: string): (r: string)
    ensures |r| <= |p| && r == p[..|r|]
    ensures r == [] || r[|r| - 1] != '/'
    ensures forall i :: |r| <= i < |p| ==> p[i] == '/'
  {
    if p != [] && p[|p| - 1] == '/' then StripSlashes(p[..|p| - 1]) else p
  }

  /** The part of `p` after its last '/'. */
  function AfterLastSlash(p: string): (r: string)
    ensures |r| <= |p| && r == p[|p| - |r|..]
    ensures '/' !in r
    ensures |r| < |p| ==> p[|p| - |r| - 1] == '/'
  {
    if p == [] || p[|p| - 1] == '/' then []
    else AfterLastSlash(p[..|p| - 1]) + [p[|p| - 1]]
  }

  /** basename(): the last component of a '/'-separated path, trailing '/' ignored. */
  function Basename(p: string): string {
    AfterLastSlash(StripSlashes(p))
  }

  /** array_pop(explode(".", $name)): what follows the last '.', or the whole name. */
  function LastPiece(name: string): string
    decreases |name|
  {
    if '.' in name then LastPiece(name[IndexOf(name, '.') + 1..]) else name
  }

  /** strtolower(trim(array_pop(explode(".", basename($file))))). */
  function ExtensionOf(file: string): string {
    Lower(Trim(LastPiece(Basename(file))))
  }

  /** The type DETECT resolves to; None when the extension is not in the table, in which case
      load() clears `correct` and returns false. */
  function DetectType(file: string): Option<int> {
    var ext := ExtensionOf(file);
    if ext in FormatTable then Some(FormatTable[ext]) else None
  }

  // ---------------------------------------------------------------------------

  /** Every type the table yields is one load() can read and save() can write. */
  lemma TableSupported(ext: string)
    requires ext in FormatTable
    ensures Supported(FormatTable[ext])
  {
  }

  lemma DetectSupported(file: string)
    requires DetectType(file).Some?
    ensures Supported(DetectType(file).value)
  {
    TableSupported(ExtensionOf(file));
  }

  /** A name without '/' is its own base name, also when it follows a directory. */
  lemma BasenameOfName(dir: string, name: string)
    requires name != [] && '/' !in name
    ensures Basename(name) == name
    ensures Basename(dir + "/" + name) == name
  {
    assert name[|name| - 1] in name;
    AfterLastSlashName([], name);
    AfterLastSlashName(dir + "/", name);
    assert [] + name == name;
    assert dir + "/" + name == (dir + "/") + name;
  }

  lemma {:induction false} AfterLastSlashName(prefix: string, name: string)
    requires '/' !in name
    requires prefix == [] || prefix[|prefix| - 1] == '/'
    ensures AfterLastSlash(prefix + name) == name
    decreases |name|
  {
    if name == [] {
      assert prefix + name == prefix;
    } else {
      var init := name[..|name| - 1];
      var c := name[|name| - 1];
      NoSlashInit(name);
      DropLast(prefix, name);
      AfterLastSlashName(prefix, init);
      assert init + [c] == name;
    }
  }

  /** The characters of a name without '/' other than '/': the last one and all before it. */
  lemma NoSlashInit(name: string)
    requires name != [] && '/' !in name
    ensures '/' !in name[..|name| - 1] && name[|name| - 1] != '/'
  {
    assert name[|name| - 1] in name;
    var init := name[..|name| - 1];
    forall i | 0 <= i < |init| ensures init[i] != '/' {
      assert init[i] == name[i];
      assert name[i] in name;
    }
  }

  /** Dropping the last character of `prefix + name` drops it from `name`. */
  lemma DropLast(prefix: string, name: string)
    requires name != []
    ensures var s := prefix + name;
      s[|s| - 1] == name[|name| - 1] && s[..|s| - 1] == prefix + name[..|name| - 1]
  {
  }

  /** The last piece of explode(".", ...) is what follows the last '.'. */
  lemma {:induction false} SplitLast(a: string, b: string)
    requires '.' !in b
    ensures LastPiece(a + "." + b) == b
    decreases |a|
  {
    var s := a + "." + b;
    assert s[|a|] == '.';
    var i := IndexOf(s, '.');
    IndexOfFirst(s, '.', |a|);
    if i == |a| {
      assert s[i + 1..] == b;
    } else {
      assert s[i + 1..] == a[i + 1..] + "." + b;
      SplitLast(a[i + 1..], b);
    }
  }

  lemma NameWithoutSlash(stem: string, ext: string)
    requires '/' !in stem && '/' !in ext
    ensures '/' !in stem + "." + ext
  {
    var name := stem + "." + ext;
    forall i | 0 <= i < |name| ensures name[i] != '/' {
      if i < |stem| {
        assert name[i] == stem[i];
        assert stem[i] in stem;
      } else if i > |stem| {
        assert name[i] == ext[i - |stem| - 1];
        assert ext[i - |stem| - 1] in ext;
      }
    }
  }

  /** The extension is the lower-cased, trimmed text after the last '.' of the base name. */
  lemma ExtensionOfName(dir: string, stem: string, ext: string)
    requires '/' !in stem && '/' !in ext && '.' !in ext
    ensures ExtensionOf(dir + "/" + stem + "." + ext) == Lower(Trim(ext))
  {
    BasenameOfPath(dir, stem, ext);
    SplitLast(stem, ext);
  }

  /** The base name of `dir/stem.ext` is `stem.ext`. */
  lemma BasenameOfPath(dir: string, stem: string, ext: string)
    requires '/' !in stem && '/' !in ext
    ensures Basename(dir + "/" + stem + "." + ext) == stem + "." + ext
  {
    var name := stem + "." + ext;
    PathShape(dir, stem, ext);
    NameWithoutSlash(stem, ext);
    assert name != [];
    BasenameOfName(dir, name);
  }

  lemma PathShape(dir: string, stem: string, ext: string)
    ensures dir + "/" + stem + "." + ext == dir + "/" + (stem + "." + ext)
  {
  }

  /** DETECT on a bare file name `stem.ext`: the table entry of the trimmed, lower-cased text
      after the last '.'. */
  lemma DetectBareName(stem: string, ext: string)
    requires '/' !in stem && '/' !in ext && '.' !in ext
    ensures DetectType(stem + "." + ext) ==
      if Lower(Trim(ext)) in FormatTable then Some(FormatTable[Lower(Trim(ext))]) else None
  {
    var name := stem + "." + ext;
    NameWithoutSlash(stem, ext);
    assert name[|stem|] == '.';
    BasenameOfName([], name);
    SplitLast(stem, ext);
  }

  /** DETECT on a name without '.', alone or after a directory: the whole name is the
      extension. */
  lemma DetectNoDot(dir: string, name: string)
    requires name != [] && '/' !in name && '.' !in name
    ensures DetectType(name) == DetectType(dir + "/" + name)
    ensures DetectType(name) ==
      if Lower(Trim(name)) in FormatTable then Some(FormatTable[Lower(Trim(name))]) else None
  {
    BasenameOfName(dir, name);
  }

  /** config.yml, or any other name ending in .yml, is YAML. */
  lemma DetectYml(stem: string)
    requires '/' !in stem
    ensures DetectType(stem + "." + "yml") == Some(Yaml)
  {
    ExtText("yml", "yml");
    YmlInTable();
    DetectBareName(stem, "yml");
  }

  /** a.b.JSON is JSON: only the last piece counts, and case does not. */
  lemma DetectUpperJson(stem: string)
    requires '/' !in stem
    ensures DetectType(stem + "." + "JSON") == Some(Json)
  {
    ExtText("JSON", "json");
    JsonInTable();
    DetectBareName(stem, "JSON");
  }

  /** x.unknownext has no type: load() then fails. */
  lemma DetectUnknown(stem: string)
    requires '/' !in stem
    ensures DetectType(stem + "." + "unknownext") == None
  {
    ExtText("unknownext", "unknownext");
    UnknownNotInTable();
    DetectBareName(stem, "unknownext");
  }

  lemma YmlInTable()
    ensures "yml" in FormatTable && FormatTable["yml"] == Yaml
  {
  }

  lemma JsonInTable()
    ensures "json" in FormatTable && FormatTable["json"] == Json
  {
  }

  lemma UnknownNotInTable()
    ensures "unknownext" !in FormatTable
  {
  }

  /** An extension without blanks at its ends, lower-cased letter by letter. */
  lemma ExtText(ext: string, l: string)
    requires ext != [] && !IsTrimChar(ext[0]) && !IsTrimChar(ext[|ext| - 1])
    requires |l| == |ext| && forall i :: 0 <= i < |ext| ==> LowerChar(ext[i]) == l[i]
    ensures Lower(Trim(ext)) == l
  {
    TrimClean(ext);
  }

  /** DETECT reads the type off the extension, whatever the directory and the stem. */
  lemma DetectByExtension(dir: string, stem: string, ext: string)
    requires '/' !in stem && '/' !in ext && '.' !in ext
    ensures DetectType(dir + "/" + stem + "." + ext) ==
      if Lower(Trim(ext)) in FormatTable then Some(FormatTable[Lower(Trim(ext))]) else None
  {
    ExtensionOfName(dir, stem, ext);
  }
}
