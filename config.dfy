/** The Config class of Util/Config.php, with its fields updated in place. Every method
    is proved to leave the state, and return the result, that the matching function of
    ConfigSpec describes. */
module ConfigClass {
  import opened PhpStrings
  import opened PhpValues
  import opened Defaults
  import opened NestedKeys
  import ListCodec
  import PropertiesCodec
  import opened Formats
  import opened ConfigSpec

  /** The files on disk, by path. */
  class FileSystem {
    var files: map<string, string>

    constructor (initial: map<string, string>)
      ensures files == initial
    {
      files := initial;
    }

    /** file_put_contents($path, $content). */
    method Write(path: string, content: string)
      modifies this
      ensures files == old(files)[path := content]
    {
      files := files[path := content];
    }
  }

  class Config {
    var config: Dict
    var nestedCache: map<string, Value>
    var file: string
    var correct: bool
    var kind: int

    /** The fields as one value. */
    function Model(): Store
      reads this
    {
      Store(config, nestedCache, file, correct, kind)
    }

    /** new Config($file, $type, $default): a fresh object, then load(). */
    constructor (fs: FileSystem, host: Host, file: string, kind: int, default: Value, stamp: string)
      modifies fs
      ensures var o := ConfigSpec.Load(Store(Empty, map[], "", false, Detect), old(fs.files), host, stamp, file, kind, default);
        Model() == o.store && fs.files == o.files
    {
      config := Empty;
      nestedCache := map[];
      this.file := "";
      correct := false;
      this.kind := Detect;
      new;
      var ok := Load(fs, host, file, kind, default, stamp);
    }

    /** reload(): drop what is in memory and load the file again. */
    method Reload(fs: FileSystem, host: Host, stamp: string)
      modifies this, fs
      ensures var o := ConfigSpec.Reload(old(Model()), old(fs.files), host, stamp);
        Model() == o.store && fs.files == o.files
    {
      config := Empty;
      nestedCache := map[];
      correct := false;
      var ok := Load(fs, host, file, kind, Arr(Empty), stamp);
    }

    /** load($file, $type, $default). */
    method Load(fs: FileSystem, host: Host, file: string, kind: int, default: Value, stamp: string) returns (ok: bool)
      modifies this, fs
      ensures Outcome(ok, Model(), fs.files) == ConfigSpec.Load(old(Model()), old(fs.files), host, stamp, file, kind, default)
    {
      correct := true;
      this.kind := kind;
      this.file := file;
      ghost var s1 := old(Model()).(correct := true, kind := kind, file := file);
      assert Model() == s1;
      var dflt := DefaultArray(default);
      if file !in fs.files {
        config := dflt;
        ok := Save(fs, host, None, stamp);
        ConfigSpec.LoadMissing(old(Model()), old(fs.files), host, stamp, file, kind, default);
        return true;
      }
      if this.kind == Detect {
        var t := DetectType(file);
        if t.Some? {
          this.kind := t.value;
        } else {
          correct := false;
          assert Model() == s1.(correct := false);
          ConfigSpec.LoadUnresolved(old(Model()), old(fs.files), host, stamp, file, kind, default);
          return false;
        }
      }
      assert Model() == s1.(kind := Resolved(file, kind).value);
      ConfigSpec.LoadResolved(old(Model()), old(fs.files), host, stamp, file, kind, default);
      ok := Read(fs, host, dflt, stamp);
    }

    /** The part of load() after the type is known: read the file, fall back to the
      defaults when no array came out, fill in the defaults and save when any were missing. */
    method Read(fs: FileSystem, host: Host, dflt: Dict, stamp: string) returns (ok: bool)
      requires file in fs.files
      modifies this, fs
      ensures Outcome(ok, Model(), fs.files) == ReadAs(old(Model()), old(fs.files), host, stamp, dflt)
    {
      var read := Decode(fs.files[file], host);
      if read.None? {
        correct := false;
        return false;
      }
      config := if read.value.Arr? then read.value.a else dflt;
      var filled, changed := FillDefaults(dflt, config);
      config := filled;
      if changed > 0 {
        ok := Save(fs, host, None, stamp);
      }
      return true;
    }

    /** The switch of load() on the type: the value the reader yields (the properties and
      list readers work on the array itself); None for a type without a branch. */
    method Decode(content: string, host: Host) returns (read: Option<Value>)
      modifies this
      ensures read == Decoded(kind, old(config), content, host)
      ensures Model().(config := old(config)) == old(Model())
      ensures read.None? ==> config == old(config)
    {
      if kind == Properties {
        ParseProperties(content);
        read := Some(Arr(config));
      } else if kind == Json {
        read := Some(host.jsonDecode(content));
      } else if kind == Yaml {
        read := Some(host.yamlParse(content));
      } else if kind == Serialized {
        read := Some(host.unserialize(content));
      } else if kind == Enum {
        ParseList(content);
        read := Some(Arr(config));
      } else {
        read := None;
      }
    }

    function Check(): bool
      reads this
    {
      correct
    }

    /** save($option). */
    method Save(fs: FileSystem, host: Host, option: Option<int>, stamp: string) returns (ok: bool)
      modifies fs
      ensures (ok, fs.files) == ConfigSpec.Save(Model(), old(fs.files), host, option, stamp)
    {
      if !correct {
        return false;
      }
      var content := "";
      if kind == Properties {
        content := WriteProperties(stamp);
      } else if kind == Json {
        content := host.jsonEncode(Arr(config), option.GetOr(JsonOptions));
      } else if kind == Yaml {
        content := host.yamlEmit(Arr(config), option.GetOr(YamlEncoding));
      } else if kind == Serialized {
        content := host.serialize(Arr(config));
      } else if kind == Enum {
        content := ListCodec.Write(config);
      }
      fs.Write(file, content);
      return true;
    }

    function Get(k: string, default: Value): Value
      reads this
    {
      Model().Get(k, default)
    }

    function Exists(k: string, lowercase: bool): bool
      reads this
    {
      Model().Exists(k, lowercase)
    }

    function GetAll(keys: bool): Listing
      reads this
    {
      Model().GetAll(keys)
    }

    /** set($k, $v): store the value, then walk the cache and drop every entry below "$k.". */
    method Set(k: string, v: Value)
      modifies this
      ensures Model() == old(Model()).Set(k, v)
    {
      config := Put(config, k, v);
      var cache := nestedCache;
      var rest := nestedCache.Keys;
      while rest != {}
        invariant rest <= nestedCache.Keys
        invariant forall nk :: nk in cache <==> nk in nestedCache && (nk in rest || !HasPrefix(nk, k + "."))
        invariant forall nk :: nk in cache ==> cache[nk] == nestedCache[nk]
        decreases |rest|
      {
        var nk :| nk in rest;
        if HasPrefix(nk, k + ".") {
          cache := cache - {nk};
        }
        rest := rest - {nk};
      }
      assert cache == Invalidate(nestedCache, k);
      nestedCache := cache;
    }

    /** setAll($v). */
    method SetAll(v: Dict)
      modifies this
      ensures Model() == old(Model()).SetAll(v)
    {
      config := v;
    }

    /** remove($k). */
    method Remove(k: string)
      modifies this
      ensures Model() == old(Model()).Remove(k)
    {
      config := Unset(config, k);
    }

    /** setDefaults($defaults). */
    method SetDefaults(defaults: Dict)
      modifies this
      ensures Model() == old(Model()).SetDefaults(defaults)
    {
      var filled, changed := FillDefaults(defaults, config);
      config := filled;
    }

    /** getNested($key, $default): the cached value if set, else the walk down the array,
      whose result is cached when it succeeds. */
    method GetNested(key: string, default: Value) returns (r: Value)
      modifies this
      ensures (r, Model()) == old(Model()).GetNested(key, default)
    {
      if key in nestedCache && !nestedCache[key].Null? {
        return nestedCache[key];
      }
      var found := Walk(config, Segments(key));
      if found.None? {
        return default;
      }
      nestedCache := nestedCache[key := found.value];
      return found.value;
    }

    /** The walk of getNested down `d` along `vars`: every step needs an array whose entry
      for the next key is set; None as soon as one is not. */
    static method Walk(d: Dict, vars: seq<string>) returns (r: Option<Value>)
      requires |vars| >= 1
      ensures r == Lookup(Arr(d), vars)
    {
      LookupStep(Arr(d), vars, 0);
      if !IsSet(d, vars[0]) {
        return None;
      }
      var cur := d.vals[vars[0]];
      var i := 1;
      while i < |vars|
        invariant 1 <= i <= |vars|
        invariant Lookup(Arr(d), vars[0..]) == Lookup(cur, vars[i..])
      {
        LookupStep(cur, vars, i);
        if cur.Arr? && IsSet(cur.a, vars[i]) {
          cur := cur.a.vals[vars[i]];
          i := i + 1;
        } else {
          return None;
        }
      }
      assert vars[0..] == vars;
      return Some(cur);
    }

    /** setNested($key, $value): walk down, creating arrays where nothing is set, and write
      the value at the end; the walk is replayed as values, from the innermost array out.
      Returns false where PHP raises an Error, with nothing changed. */
    method SetNested(key: string, value: Value) returns (ok: bool)
      modifies this
      ensures ok == old(Model()).SetNested(key, value).Some?
      ensures Model() == if ok then old(Model()).SetNested(key, value).value else old(Model())
    {
      var r := WalkAndWrite(config, Segments(key), value);
      if r.None? {
        return false;
      }
      config := r.value;
      nestedCache := nestedCache[key := value];
      return true;
    }

    /** The walk of setNested down `d` along `vars`, creating arrays where nothing is set,
      and the write at the end; None where PHP raises an Error. */
    static method WalkAndWrite(d: Dict, vars: seq<string>, value: Value) returns (r: Option<Dict>)
      requires |vars| >= 1
      ensures r == SetPath(d, vars, value)
    {
      var n := |vars|;
      var containers: seq<Dict> := [d];
      var j := 0;
      while j < n - 1
        invariant 0 <= j <= n - 1 && |containers| == j + 1 && containers[0] == d
        invariant forall t :: 0 <= t < j ==> Descend(containers[t], vars[t]) == Some(containers[t + 1])
        invariant SetPath(d, vars, value).None? <==> SetPath(containers[j], vars[j..], value).None?
      {
        DescendStep(containers[j], vars, j, value);
        var next := Descend(containers[j], vars[j]);
        if next.None? {
          return None;
        }
        containers := containers + [next.value];
        j := j + 1;
      }
      var cur := Put(containers[n - 1], vars[n - 1], value);
      LastStep(containers[n - 1], vars, value);
      var t := n - 1;
      while t > 0
        invariant 0 <= t <= n - 1
        invariant SetPath(containers[t], vars[t..], value) == Some(cur)
      {
        t := t - 1;
        RebuildStep(containers[t], vars, t, value, containers[t + 1], cur);
        cur := Put(containers[t], vars[t], Arr(cur));
      }
      assert vars[0..] == vars;
      return Some(cur);
    }

    /** parseList($content): the content is split into lines, then each line is taken. */
    method ParseList(content: string)
      modifies this
      ensures Model() == old(Model()).(config := ListCodec.ReadInto(old(config), content))
    {
      var lines := ListCodec.Lines(content);
      TakeLines(lines);
    }

    /** The foreach of parseList: every trimmed, non-blank line becomes a key set to true. */
    method TakeLines(lines: seq<string>)
      modifies this
      ensures Model() == old(Model()).(config := ListCodec.PutTrue(old(config), ListCodec.Tokens(lines)))
    {
      var c := config;
      for i := 0 to |lines|
        invariant unchanged(this)
        invariant ListCodec.Scan(c, lines[i..]) == ListCodec.Scan(config, lines)
      {
        ListCodec.ScanAt(c, lines, i);
        var v := Trim(lines[i]);
        if v != "" {
          c := Put(c, v, Bool(true));
        }
      }
      assert lines[|lines|..] == [];
      config := c;
      ListCodec.ScanTokens(old(config), lines);
    }

    /** parseProperties($content): one assignment per match of the key=value pattern, the
      value trimmed and on/true/yes, off/false/no (in any case) turned into booleans. */
    method ParseProperties(content: string)
      modifies this
      ensures Model() == old(Model()).(config := PropertiesCodec.ReadInto(old(config), content))
    {
      var matches := PropertiesCodec.Matches(content);
      if |matches| > 0 {
        TakeMatches(matches);
      }
    }

    /** The loop of parseProperties over the matches found. */
    method TakeMatches(matches: seq<(string, string)>)
      modifies this
      ensures Model() == old(Model()).(config := PropertiesCodec.PutAll(old(config), PropertiesCodec.Assignments(matches)))
    {
      ghost var asg := PropertiesCodec.Assignments(matches);
      var c := config;
      for i := 0 to |matches|
        invariant unchanged(this)
        invariant PropertiesCodec.PutAll(c, asg[i..]) == PropertiesCodec.PutAll(config, asg)
      {
        var k := matches[i].0;
        var t := Trim(matches[i].1);
        var l := Lower(t);
        var v := Str(t);
        if l in PropertiesCodec.TrueWords {
          v := Bool(true);
        } else if l in PropertiesCodec.FalseWords {
          v := Bool(false);
        }
        PropertiesCodec.CoerceOf(matches[i].1, t, l);
        PropertiesCodec.PutAllAt(c, asg, i);
        c := Put(c, k, v);
      }
      assert asg[|matches|..] == [];
      config := c;
    }

    /** writeProperties(): the header, then one key=value line per entry. */
    method WriteProperties(stamp: string) returns (content: string)
      ensures content == PropertiesCodec.Write(config, stamp)
    {
      content := PropertiesCodec.Header(stamp);
      for i := 0 to |config.keys|
        invariant content == PropertiesCodec.Header(stamp) + PropertiesCodec.Body(config.keys[..i], config.vals)
      {
        var k := config.keys[i];
        var v := if k in config.vals then config.vals[k] else Null;
        var text: string;
        if v.Bool? {
          text := if v.b then "on" else "off";
        } else if v.Arr? {
          text := Join(seq(|v.a.keys|, j requires 0 <= j < |v.a.keys| => ToPhpString(ValuesInOrder(v.a)[j])), ";");
        } else {
          text := ToPhpString(v);
        }
        WriteStep(PropertiesCodec.Header(stamp), config.keys, config.vals, i, text);
        content := content + k + "=" + text + "\r\n";
      }
      assert config.keys[..|config.keys|] == config.keys;
    }
  }

  /** One turn of writeProperties(): the line for the next key extends the body. */
  lemma WriteStep(head: string, ks: seq<string>, vals: map<string, Value>, i: nat, text: string)
    requires i < |ks|
    requires text == PropertiesCodec.Text(if ks[i] in vals then vals[ks[i]] else Null)
    ensures head + PropertiesCodec.Body(ks[..i + 1], vals) ==
      head + PropertiesCodec.Body(ks[..i], vals) + ks[i] + "=" + text + "\r\n"
  {
    ghost var prefix := ks[..i];
    assert ks[..i + 1] == prefix + [ks[i]];
    PropertiesCodec.BodySnoc(prefix, vals, ks[i]);
    LineAppended(head, PropertiesCodec.Body(prefix, vals), ks[i], text);
  }

  lemma LineAppended(head: string, body: string, k: string, text: string)
    ensures head + (body + (k + "=" + text + "\r\n")) == head + body + k + "=" + text + "\r\n"
  {
  }
}
