/** What a Config object (Util/Config.php) holds and what each of its operations does
    to that state, written as functions: the accessors, the nested-key cache, and
    load(), save() and reload() as functions of the state, the files on disk and the
    external codecs. The class in config.dfy performs the same steps in place and is
    proved to agree with these functions. */
module ConfigSpec {
  import opened PhpStrings
  import opened PhpValues
  import opened Defaults
  import opened NestedKeys
  import ListCodec
  import PropertiesCodec
  import opened Formats

  /** JSON_PRETTY_PRINT | JSON_BIGINT_AS_STRING: save()'s JSON flags when none are given. */
  const JsonOptions: int := 128 + 2
  /** YAML_UTF8_ENCODING: save()'s YAML encoding when none is given. */
  const YamlEncoding: int := 1

  /** The codecs Config calls but does not define: json_decode($c, true), json_encode,
      yaml_parse (after fixYAMLIndexes), yaml_emit, unserialize and serialize. A decoder
      yields whatever PHP value the text denotes (null, false or a scalar included). */
  datatype Host = Host(
    jsonDecode: string -> Value,
    jsonEncode: (Value, int) -> string,
    yamlParse: string -> Value,
    yamlEmit: (Value, int) -> string,
    unserialize: string -> Value,
    serialize: Value -> string)

  /** What getAll() returns: the list of keys, or the whole array. */
  datatype Listing = KeyList(ks: seq<string>) | Whole(d: Dict)

  /** The fields of a Config object: the array, the cache of nested lookups, the file, the
      `correct` flag and the type. */
  datatype Store = Store(config: Dict, cache: map<string, Value>, file: string, correct: bool, kind: int)
  {
    /** get($k, $default). */
    function Get(k: string, default: Value): Value {
      if correct && IsSet(config, k) then config.vals[k] else default
    }

    /** exists($k, $lowercase). */
    function Exists(k: string, lowercase: bool): bool {
      if lowercase then IsSet(LowerKeys(config.keys, config.vals), Lower(k)) else IsSet(config, k)
    }

    /** getAll($keys). */
    function GetAll(keys: bool): Listing {
      if keys then KeyList(config.keys) else Whole(config)
    }

    /** set($k, $v). */
    function Set(k: string, v: Value): Store {
      this.(config := Put(config, k, v), cache := Invalidate(cache, k))
    }

    /** setAll($v). */
    function SetAll(v: Dict): Store {
      this.(config := v)
    }

    /** remove($k). */
    function Remove(k: string): Store {
      this.(config := Unset(config, k))
    }

    /** setDefaults($defaults): fillDefaults into the array, its count discarded. */
    function SetDefaults(defaults: Dict): Store {
      this.(config := Fill(defaults, config).0)
    }

    /** getNested($key, $default): the value returned and the state after the call. */
    function GetNested(key: string, default: Value): (Value, Store) {
      if key in cache && !cache[key].Null? then (cache[key], this)
      else
        match Lookup(Arr(config), Segments(key))
        case None => (default, this)
        case Some(v) => (v, this.(cache := cache[key := v]))
    }

    /** setNested($key, $value); None when PHP raises an Error, the state then unchanged. */
    function SetNested(key: string, v: Value): Option<Store> {
      match SetPath(config, Segments(key), v)
      case None => None
      case Some(c) => Some(this.(config := c, cache := cache[key := v]))
    }
  }

  /** The cache left by set($k): the entries whose key starts with "$k." are dropped. */
  function Invalidate(cache: map<string, Value>, k: string): map<string, Value> {
    map nk | nk in cache && !HasPrefix(nk, k + ".") :: cache[nk]
  }

  /** array_change_key_case($d, CASE_LOWER): each key lower-cased, in order. */
  function LowerKeys(ks: seq<string>, vals: map<string, Value>): Dict
    decreases |ks|
  {
    if ks == [] then Empty
    else
      var k := ks[|ks| - 1];
      Put(LowerKeys(ks[..|ks| - 1], vals), Lower(k), if k in vals then vals[k] else Null)
  }

  /** A cache entry that is set agrees with walking the array along the entry's key. */
  ghost predicate Fresh(s: Store, key: string)
    requires key in s.cache
  {
    !s.cache[key].Null? ==> Lookup(Arr(s.config), Segments(key)) == Some(s.cache[key])
  }

  /** Every entry of the cache is fresh. */
  ghost predicate Coherent(s: Store) {
    forall key :: key in s.cache ==> Fresh(s, key)
  }

  /** The text save() writes for type `kind`; "" for a type it has no branch for, since
      file_put_contents then receives null. */
  function Encoded(kind: int, config: Dict, host: Host, option: Option<int>, stamp: string): string {
    if kind == Properties then PropertiesCodec.Write(config, stamp)
    else if kind == Json then host.jsonEncode(Arr(config), option.GetOr(JsonOptions))
    else if kind == Yaml then host.yamlEmit(Arr(config), option.GetOr(YamlEncoding))
    else if kind == Serialized then host.serialize(Arr(config))
    else if kind == Enum then ListCodec.Write(config)
    else ""
  }

  /** What load() assigns to the array for type `kind` from `content`; the properties and
      list readers merge into the current array. None for a type load() rejects. */
  function Decoded(kind: int, current: Dict, content: string, host: Host): (r: Option<Value>)
    ensures r.Some? <==> Supported(kind)
  {
    if kind == Properties then Some(Arr(PropertiesCodec.ReadInto(current, content)))
    else if kind == Json then Some(host.jsonDecode(content))
    else if kind == Yaml then Some(host.yamlParse(content))
    else if kind == Serialized then Some(host.unserialize(content))
    else if kind == Enum then Some(Arr(ListCodec.ReadInto(current, content)))
    else None
  }

  /** The ENUM text save() writes reads back as the keys, in order, each mapped to true. */
  lemma EncodedList(d: Dict, host: Host, option: Option<int>, stamp: string)
    requires WellFormed(d) && forall k :: k in d.vals ==> ListCodec.ListKey(k)
    ensures Decoded(Enum, Empty, Encoded(Enum, d, host, option, stamp), host) == Some(Arr(ListCodec.Listed(d)))
  {
    var text := Encoded(Enum, d, host, option, stamp);
    assert text == ListCodec.Write(d);
    ListCodec.ListRoundTrip(d);
    assert Decoded(Enum, Empty, text, host) == Some(Arr(ListCodec.ReadInto(Empty, text)));
  }

  /** The properties text save() writes reads back as the keys, in order, each with the
      coerced text of its value. */
  lemma EncodedProperties(d: Dict, host: Host, option: Option<int>, stamp: string)
    requires '=' !in stamp && WellFormed(d)
    requires forall k :: k in d.vals ==> PropertiesCodec.KeyText(k) && PropertiesCodec.LineFree(PropertiesCodec.Text(d.vals[k]))
    ensures Decoded(Properties, Empty, Encoded(Properties, d, host, option, stamp), host) ==
      Some(Arr(Dict(d.keys, map k | k in d.vals :: PropertiesCodec.ReadBack(d.vals[k]))))
  {
    PropertiesCodec.PropertiesRoundTrip(d, stamp);
  }

  /** save($option): whether it reports success, and the files afterwards; `stamp` is the
      date() text. */
  function Save(s: Store, files: map<string, string>, host: Host, option: Option<int>, stamp: string): (bool, map<string, string>) {
    if s.correct then (true, files[s.file := Encoded(s.kind, s.config, host, option, stamp)])
    else (false, files)
  }

  /** The result of load(): the returned flag, the state and the files afterwards. */
  datatype Outcome = Outcome(ok: bool, store: Store, files: map<string, string>)

  /** The defaults load() works with: a non-array `$default` counts as []. */
  function DefaultArray(default: Value): Dict {
    if default.Arr? then default.a else Empty
  }

  /** The type load() reads an existing file as; None when DETECT finds no known extension. */
  function Resolved(file: string, kind: int): Option<int> {
    if kind == Detect then DetectType(file) else Some(kind)
  }

  /** load($file, $type, $default) from state `s`. */
  function Load(s: Store, files: map<string, string>, host: Host, stamp: string,
                file: string, kind: int, default: Value): Outcome
  {
    var dflt := DefaultArray(default);
    var s1 := s.(correct := true, kind := kind, file := file);
    if file !in files then
      var s2 := s1.(config := dflt);
      Outcome(true, s2, Save(s2, files, host, None, stamp).1)
    else
      match Resolved(file, kind)
      case None => Outcome(false, s1.(correct := false), files)
      case Some(t) => ReadAs(s1.(kind := t), files, host, stamp, dflt)
  }

  /** load() of a missing file: the defaults become the array and are saved. */
  lemma LoadMissing(s: Store, files: map<string, string>, host: Host, stamp: string,
                    file: string, kind: int, default: Value)
    requires file !in files
    ensures var s2 := s.(correct := true, kind := kind, file := file, config := DefaultArray(default));
      Load(s, files, host, stamp, file, kind, default) == Outcome(true, s2, Save(s2, files, host, None, stamp).1)
  {
  }

  /** load() of an existing file whose type DETECT cannot resolve. */
  lemma LoadUnresolved(s: Store, files: map<string, string>, host: Host, stamp: string,
                       file: string, kind: int, default: Value)
    requires file in files && Resolved(file, kind).None?
    ensures Load(s, files, host, stamp, file, kind, default) ==
      Outcome(false, s.(correct := false, kind := kind, file := file), files)
  {
  }

  /** load() of an existing file whose type is known: the rest is ReadAs. */
  lemma LoadResolved(s: Store, files: map<string, string>, host: Host, stamp: string,
                     file: string, kind: int, default: Value)
    requires file in files && Resolved(file, kind).Some?
    ensures Load(s, files, host, stamp, file, kind, default) ==
      ReadAs(s.(correct := true, kind := Resolved(file, kind).value, file := file), files, host, stamp, DefaultArray(default))
  {
  }

  /** The rest of load() once the type of the existing file `s.file` is known: read it,
      fall back to the defaults when no array came out, fill in the defaults and save if
      any were missing. */
  function ReadAs(s: Store, files: map<string, string>, host: Host, stamp: string, dflt: Dict): Outcome
    requires s.file in files
  {
    match Decoded(s.kind, s.config, files[s.file], host)
    case None => Outcome(false, s.(correct := false), files)
    case Some(v) =>
      var filled := Fill(dflt, if v.Arr? then v.a else dflt);
      var s3 := s.(config := filled.0);
      Outcome(true, s3, if filled.1 > 0 then Save(s3, files, host, None, stamp).1 else files)
  }

  /** reload(): the array, the cache and `correct` are cleared, then the file is loaded
      again with the current type and no defaults. */
  function Reload(s: Store, files: map<string, string>, host: Host, stamp: string): Outcome {
    Load(s.(config := Empty, cache := map[], correct := false), files, host, stamp, s.file, s.kind, Arr(Empty))
  }

  // ---------------------------------------------------------------------------
  // get, set, remove, exists, getAll, setDefaults

  /** get() after set(): the new value at the key when the store is correct and the value is
      set, the default otherwise; every other key reads as before. */
  lemma GetAfterSet(s: Store, k: string, v: Value, x: string, d: Value)
    ensures s.Set(k, v).Get(x, d) ==
      if x == k then (if s.correct && !v.Null? then v else d) else s.Get(x, d)
  {
  }

  /** get() after remove(): the default at the key, every other key as before; the cache is
      left alone. */
  lemma GetAfterRemove(s: Store, k: string, x: string, d: Value)
    ensures s.Remove(k).Get(x, d) == if x == k then d else s.Get(x, d)
    ensures s.Remove(k).cache == s.cache && !s.Remove(k).Exists(k, false)
  {
  }

  /** get() answers the default when the store failed to load or the key is not set. */
  lemma GetDefault(s: Store, k: string, d: Value)
    requires !s.correct || !IsSet(s.config, k)
    ensures s.Get(k, d) == d
  {
  }

  /** set() touches the one key of the array and, of the cache, exactly the entries below
      "$k."; everything else is kept. */
  lemma SetFrame(s: Store, k: string, v: Value, nk: string)
    ensures var r := s.Set(k, v);
      r.config.vals == s.config.vals[k := v] && r.file == s.file && r.correct == s.correct && r.kind == s.kind &&
      (nk in r.cache <==> nk in s.cache && !HasPrefix(nk, k + ".")) &&
      (nk in r.cache ==> r.cache[nk] == s.cache[nk])
  {
  }

  /** The lower-cased array holds a key exactly when some key folds to it, with the value of
      the last key that does. */
  lemma {:induction false} LowerKeysValues(ks: seq<string>, vals: map<string, Value>, l: string, i: nat)
    requires i < |ks| && Lower(ks[i]) == l
    requires forall j :: i < j < |ks| ==> Lower(ks[j]) != l
    ensures l in LowerKeys(ks, vals).vals
    ensures LowerKeys(ks, vals).vals[l] == if ks[i] in vals then vals[ks[i]] else Null
    decreases |ks|
  {
    if i < |ks| - 1 {
      LowerKeysValues(ks[..|ks| - 1], vals, l, i);
    }
  }

  lemma {:induction false} LowerKeysAbsent(ks: seq<string>, vals: map<string, Value>, l: string)
    requires forall j :: 0 <= j < |ks| ==> Lower(ks[j]) != l
    ensures l !in LowerKeys(ks, vals).vals
    decreases |ks|
  {
    if ks != [] {
      LowerKeysAbsent(ks[..|ks| - 1], vals, l);
    }
  }

  /** exists($k, true): some key equals $k up to case, and the last such key holds a set
      value. */
  lemma ExistsLowercase(s: Store, k: string)
    requires WellFormed(s.config)
    ensures s.Exists(k, true) <==>
      exists i :: 0 <= i < |s.config.keys| && Lower(s.config.keys[i]) == Lower(k) &&
        (forall j :: i < j < |s.config.keys| ==> Lower(s.config.keys[j]) != Lower(k)) &&
        IsSet(s.config, s.config.keys[i])
  {
    var ks, l := s.config.keys, Lower(k);
    if exists i :: 0 <= i < |ks| && Lower(ks[i]) == l {
      var i0 :| 0 <= i0 < |ks| && Lower(ks[i0]) == l;
      var i := LastLower(ks, l, i0);
      LowerKeysValues(ks, s.config.vals, l, i);
      LastLowerUnique(ks, l, i);
    } else {
      LowerKeysAbsent(ks, s.config.vals, l);
    }
  }

  /** The last key equal to `l` up to case, at or after a known one. */
  lemma LastLower(ks: seq<string>, l: string, i0: nat) returns (i: nat)
    requires i0 < |ks| && Lower(ks[i0]) == l
    ensures i < |ks| && Lower(ks[i]) == l && forall j :: i < j < |ks| ==> Lower(ks[j]) != l
    decreases |ks| - i0
  {
    if exists j :: i0 < j < |ks| && Lower(ks[j]) == l {
      var j :| i0 < j < |ks| && Lower(ks[j]) == l;
      i := LastLower(ks, l, j);
    } else {
      i := i0;
    }
  }

  /** There is only one last such key. */
  lemma LastLowerUnique(ks: seq<string>, l: string, i: nat)
    requires i < |ks| && Lower(ks[i]) == l && forall j :: i < j < |ks| ==> Lower(ks[j]) != l
    ensures forall i' :: 0 <= i' < |ks| && Lower(ks[i']) == l && (forall j :: i' < j < |ks| ==> Lower(ks[j]) != l) ==> i' == i
  {
  }

  /** getAll(true) lists every key once; getAll() is the whole array. */
  lemma GetAllListing(s: Store)
    requires WellFormed(s.config)
    ensures s.GetAll(true).KeyList? && Distinct(s.GetAll(true).ks)
    ensures forall k :: k in s.GetAll(true).ks <==> k in s.config.vals
    ensures s.GetAll(false) == Whole(s.config)
  {
  }

  /** setDefaults() leaves at every leaf path of the defaults what the array set there, or
      else the default; the cache and the flags are untouched. */
  lemma SetDefaultsLeaves(s: Store, defaults: Dict, p: seq<string>)
    requires DeepWellFormed(defaults) && p in LeafPaths(defaults)
    ensures At(Arr(s.SetDefaults(defaults).config), p) == Expected(defaults, s.config, p)
    ensures s.SetDefaults(defaults).cache == s.cache && s.SetDefaults(defaults).correct == s.correct
  {
    FillLeaf(defaults, s.config, p);
  }

  // ---------------------------------------------------------------------------
  // The nested-key cache

  /** With a coherent cache, getNested() answers what walking the array answers, and the
      cache stays coherent. */
  lemma GetNestedCoherent(s: Store, key: string, d: Value)
    requires Coherent(s)
    ensures s.GetNested(key, d).0 == Lookup(Arr(s.config), Segments(key)).GetOr(d)
    ensures Coherent(s.GetNested(key, d).1)
  {
    if key in s.cache && !s.cache[key].Null? {
      assert Fresh(s, key);
    } else if Lookup(Arr(s.config), Segments(key)).Some? {
      var s' := s.GetNested(key, d).1;
      forall x | x in s'.cache ensures Fresh(s', x) {
        if x != key {
          assert Fresh(s, x);
        }
      }
    }
  }

  /** A lookup that misses leaves the state as it was. */
  lemma GetNestedMiss(s: Store, key: string, d: Value)
    requires !(key in s.cache && !s.cache[key].Null?)
    requires Lookup(Arr(s.config), Segments(key)).None?
    ensures s.GetNested(key, d) == (d, s)
  {
  }

  /** getNested() after a successful setNested() of the same key gives the value back (from
      the cache) when it is not null, and the default when it is; the new entry is fresh. */
  lemma SetNestedThenGetNested(s: Store, key: string, v: Value, d: Value)
    requires s.SetNested(key, v).Some?
    ensures s.SetNested(key, v).value.GetNested(key, d).0 == if v.Null? then d else v
    ensures Fresh(s.SetNested(key, v).value, key)
  {
    var segs := Segments(key);
    var s' := s.SetNested(key, v).value;
    SetPathPlaces(s.config, segs, v);
    if v.Null? {
      LookupNullLeaf(Arr(s'.config), segs);
    } else {
      AtLookup(Arr(s'.config), segs);
    }
  }

  /** A fresh cache entry whose path parts from the path setNested() wrote stays fresh. */
  lemma SetNestedKeepsApart(s: Store, key: string, v: Value, other: string)
    requires s.SetNested(key, v).Some? && other in s.cache && other != key && Fresh(s, other)
    requires Diverge(Segments(other), Segments(key))
    ensures other in s.SetNested(key, v).value.cache && Fresh(s.SetNested(key, v).value, other)
  {
    var s' := s.SetNested(key, v).value;
    var p := Segments(other);
    if !s.cache[other].Null? {
      LookupAt(Arr(s.config), p);
      SetPathFrame(s.config, Segments(key), v, p);
      AtLookup(Arr(s'.config), p);
    }
  }

  /** For a key without '.', the keys whose first segment is that key are the key itself and
      the keys that start with it followed by '.'. */
  lemma FirstSegment(nk: string, k: string)
    requires '.' !in k && Segments(nk)[0] == k
    ensures nk == k || HasPrefix(nk, k + ".")
  {
    if '.' in nk {
      var i := IndexOf(nk, '.');
      assert nk[..i] == k;
      assert nk[..|k| + 1] == k + ".";
    }
  }

  /** The first segment of a key holds no '.'. */
  lemma SegmentHeadNoDot(nk: string)
    ensures '.' !in Segments(nk)[0]
  {
  }

  /** Writing a top-level key changes no walk that starts at another key. */
  lemma LookupPutOther(c: Dict, k: string, v: Value, segs: seq<string>)
    requires segs != [] && segs[0] != k
    ensures Lookup(Arr(Put(c, k, v)), segs) == Lookup(Arr(c), segs)
  {
  }

  /** set($k): every cached entry other than $k's own that was fresh stays fresh, and the
      entries below "$k." are gone. */
  lemma SetKeepsFresh(s: Store, k: string, v: Value, nk: string)
    requires nk in s.cache && nk != k && Fresh(s, nk)
    ensures nk in s.Set(k, v).cache <==> !HasPrefix(nk, k + ".")
    ensures nk in s.Set(k, v).cache ==> Fresh(s.Set(k, v), nk)
  {
    var segs := Segments(nk);
    if nk in s.Set(k, v).cache && segs[0] == k {
      SegmentHeadNoDot(nk);
      FirstSegment(nk, k);
    }
    if nk in s.Set(k, v).cache && !s.cache[nk].Null? {
      LookupPutOther(s.config, k, v, segs);
    }
  }

  /** set($k) keeps the cached entry of $k itself: after a fresh non-null entry, getNested($k)
      still answers the old value while get($k) answers the new one. */
  lemma SetKeepsOwnEntry(s: Store, k: string, v: Value, d: Value)
    requires s.correct && k in s.cache && !s.cache[k].Null? && !v.Null?
    ensures k in s.Set(k, v).cache && s.Set(k, v).cache[k] == s.cache[k]
    ensures s.Set(k, v).GetNested(k, d).0 == s.cache[k]
    ensures s.Set(k, v).Get(k, d) == v
  {
  }

  // ---------------------------------------------------------------------------
  // load, save, reload

  /** save() writes only from a correctly loaded store, and then always reports success. */
  lemma SaveWrites(s: Store, files: map<string, string>, host: Host, option: Option<int>, stamp: string)
    ensures Save(s, files, host, option, stamp).0 == s.correct
    ensures s.correct ==> Save(s, files, host, option, stamp).1 == files[s.file := Encoded(s.kind, s.config, host, option, stamp)]
    ensures !s.correct ==> Save(s, files, host, option, stamp).1 == files
  {
  }

  /** load() of a missing file: the defaults become the array and are saved under the given
      type; the load succeeds. */
  lemma LoadMissingFile(s: Store, files: map<string, string>, host: Host, stamp: string, file: string, kind: int, default: Value)
    requires file !in files
    ensures var o := Load(s, files, host, stamp, file, kind, default);
      o.ok && o.store.correct && o.store.config == DefaultArray(default) && o.store.kind == kind &&
      o.files == files[file := Encoded(kind, DefaultArray(default), host, None, stamp)]
  {
  }

  /** Under DETECT a missing file is created empty: no type has been chosen when save() runs. */
  lemma LoadMissingDetect(s: Store, files: map<string, string>, host: Host, stamp: string, file: string, default: Value)
    requires file !in files
    ensures Load(s, files, host, stamp, file, Detect, default).files == files[file := ""]
  {
    LoadMissingFile(s, files, host, stamp, file, Detect, default);
  }

  /** load() of an existing file fails exactly when DETECT finds no known extension or the
      type is one load() has no branch for; a failed load writes nothing, keeps the array and
      clears `correct`. */
  lemma LoadExisting(s: Store, files: map<string, string>, host: Host, stamp: string, file: string, kind: int, default: Value)
    requires file in files
    ensures var o := Load(s, files, host, stamp, file, kind, default);
      o.ok == o.store.correct &&
      (o.ok <==> Resolved(file, kind).Some? && Supported(Resolved(file, kind).value)) &&
      (!o.ok ==> o.files == files && o.store.config == s.config && o.store.file == file)
  {
  }

  /** DETECT with a file name whose extension is not in the table. */
  lemma LoadDetectMiss(s: Store, files: map<string, string>, host: Host, stamp: string, file: string, default: Value)
    requires file in files && DetectType(file).None?
    ensures Load(s, files, host, stamp, file, Detect, default) ==
      Outcome(false, s.(correct := false, kind := Detect, file := file), files)
  {
  }

  /** A decoder that yields no array is replaced by the defaults. */
  lemma LoadNotArray(s: Store, files: map<string, string>, host: Host, stamp: string, file: string, kind: int, default: Value)
    requires file in files && Resolved(file, kind).Some?
    requires var t := Resolved(file, kind).value;
      Decoded(t, s.config, files[file], host).Some? && !Decoded(t, s.config, files[file], host).value.Arr?
    ensures var o := Load(s, files, host, stamp, file, kind, default);
      o.ok && o.store.config == Fill(DefaultArray(default), DefaultArray(default)).0
  {
  }

  /** After a successful load() every non-null scalar default is set in the array. */
  lemma LoadSetsDefaults(s: Store, files: map<string, string>, host: Host, stamp: string, file: string, kind: int,
                         default: Dict, p: seq<string>)
    requires DeepWellFormed(default) && p in LeafPaths(default) && At(Arr(default), p) != Some(Null)
    requires Load(s, files, host, stamp, file, kind, Arr(default)).ok
    ensures Lookup(Arr(Load(s, files, host, stamp, file, kind, Arr(default)).store.config), p).Some?
  {
    if file !in files {
      LeafPathAt(default, p);
      AtLookup(Arr(default), p);
    } else {
      var t := Resolved(file, kind).value;
      var v := Decoded(t, s.config, files[file], host).value;
      FillSetsEveryLeaf(default, if v.Arr? then v.a else default, p);
    }
  }

  /** load() of an existing file writes it back exactly when fillDefaults() added something. */
  lemma LoadSavesWhenFilled(s: Store, files: map<string, string>, host: Host, stamp: string, file: string, kind: int, default: Value)
    requires file in files && Load(s, files, host, stamp, file, kind, default).ok
    ensures var o := Load(s, files, host, stamp, file, kind, default);
      var t := Resolved(file, kind).value;
      var v := Decoded(t, s.config, files[file], host).value;
      var filled := Fill(DefaultArray(default), if v.Arr? then v.a else DefaultArray(default));
      o.store.config == filled.0 &&
      o.files == if filled.1 > 0 then files[file := Encoded(t, filled.0, host, None, stamp)] else files
  {
  }

  /** reload() forgets everything held in memory: two stores with the same file and type
      reload to the same outcome. */
  lemma ReloadForgets(s1: Store, s2: Store, files: map<string, string>, host: Host, stamp: string)
    requires s1.file == s2.file && s1.kind == s2.kind
    ensures Reload(s1, files, host, stamp) == Reload(s2, files, host, stamp)
  {
  }

  lemma FillNothing(data: Dict)
    ensures Fill(Empty, data) == (data, 0)
  {
  }

  /** reload() of a file under an explicit type whose reader yields an array: that array,
      with nothing written. */
  lemma ReloadDecoded(s: Store, files: map<string, string>, host: Host, stamp: string)
    requires s.file in files && s.kind != Detect
    requires Decoded(s.kind, Empty, files[s.file], host).Some? && Decoded(s.kind, Empty, files[s.file], host).value.Arr?
    ensures var o := Reload(s, files, host, stamp);
      o.ok && o.files == files && o.store.cache == map[] &&
      o.store.config == Decoded(s.kind, Empty, files[s.file], host).value.a
  {
    FillNothing(Decoded(s.kind, Empty, files[s.file], host).value.a);
  }

  /** save() then reload() of a list file: every key comes back, in order, mapped to true;
      nothing is written. */
  lemma SaveReloadList(s: Store, files: map<string, string>, host: Host, stamp: string, stamp2: string)
    requires s.correct && s.kind == Enum
    requires WellFormed(s.config) && forall k :: k in s.config.vals ==> ListCodec.ListKey(k)
    ensures var saved := Save(s, files, host, None, stamp).1;
      var o := Reload(s, saved, host, stamp2);
      o.ok && o.files == saved && o.store.cache == map[] &&
      o.store.config == ListCodec.Listed(s.config)
  {
    var saved := Save(s, files, host, None, stamp).1;
    var text := ListCodec.Write(s.config);
    assert saved[s.file] == text;
    EncodedList(s.config, host, None, stamp);
    ReloadDecoded(s, saved, host, stamp2);
  }

  /** save() then reload() of a properties file: every key comes back, in order, with the
      coerced text of its value; nothing is written. */
  lemma SaveReloadProperties(s: Store, files: map<string, string>, host: Host, stamp: string, stamp2: string)
    requires s.correct && s.kind == Properties && '=' !in stamp
    requires WellFormed(s.config)
    requires forall k :: k in s.config.vals ==> PropertiesCodec.KeyText(k) && PropertiesCodec.LineFree(PropertiesCodec.Text(s.config.vals[k]))
    ensures var saved := Save(s, files, host, None, stamp).1;
      var o := Reload(s, saved, host, stamp2);
      o.ok && o.files == saved && o.store.cache == map[] &&
      o.store.config == Dict(s.config.keys, map k | k in s.config.vals :: PropertiesCodec.ReadBack(s.config.vals[k]))
  {
    var saved := Save(s, files, host, None, stamp).1;
    var text := PropertiesCodec.Write(s.config, stamp);
    assert saved[s.file] == text;
    EncodedProperties(s.config, host, None, stamp);
    ReloadDecoded(s, saved, host, stamp2);
  }

  // ---------------------------------------------------------------------------
  // Well-formedness: every operation leaves a well-formed array

  /** Decoders whose arrays are well formed, as every PHP array is. */
  ghost predicate WellFormedDecoders(host: Host) {
    (forall t :: host.jsonDecode(t).Arr? ==> WellFormed(host.jsonDecode(t).a)) &&
    (forall t :: host.yamlParse(t).Arr? ==> WellFormed(host.yamlParse(t).a)) &&
    (forall t :: host.unserialize(t).Arr? ==> WellFormed(host.unserialize(t).a))
  }

  /** What load() reads for a type is a well-formed array whenever it is an array. */
  lemma DecodedWellFormed(kind: int, current: Dict, content: string, host: Host)
    requires WellFormed(current) && WellFormedDecoders(host)
    requires Decoded(kind, current, content, host).Some? && Decoded(kind, current, content, host).value.Arr?
    ensures WellFormed(Decoded(kind, current, content, host).value.a)
  {
    if kind == Properties {
      PropertiesCodec.ReadIntoWellFormed(current, content);
    } else if kind == Enum {
      ListCodec.ReadIntoWellFormed(current, content);
    }
  }

  /** load() leaves a well-formed array, given well-formed defaults, a well-formed array to
      start from and decoders that yield well-formed arrays. */
  lemma LoadWellFormed(s: Store, files: map<string, string>, host: Host, stamp: string,
                       file: string, kind: int, default: Value)
    requires WellFormed(s.config) && WellFormedDecoders(host)
    requires default.Arr? ==> WellFormed(default.a)
    ensures WellFormed(Load(s, files, host, stamp, file, kind, default).store.config)
  {
    var dflt := DefaultArray(default);
    if file !in files {
      LoadMissing(s, files, host, stamp, file, kind, default);
    } else if Resolved(file, kind).None? {
      LoadUnresolved(s, files, host, stamp, file, kind, default);
    } else {
      LoadResolved(s, files, host, stamp, file, kind, default);
      var t := Resolved(file, kind).value;
      var d := Decoded(t, s.config, files[file], host);
      if d.Some? {
        if d.value.Arr? {
          DecodedWellFormed(t, s.config, files[file], host);
        }
        FillWellFormed(dflt, if d.value.Arr? then d.value.a else dflt);
      }
    }
  }

  /** reload() leaves a well-formed array. */
  lemma ReloadWellFormed(s: Store, files: map<string, string>, host: Host, stamp: string)
    requires WellFormedDecoders(host)
    ensures WellFormed(Reload(s, files, host, stamp).store.config)
  {
    LoadWellFormed(s.(config := Empty, cache := map[], correct := false), files, host, stamp, s.file, s.kind, Arr(Empty));
  }

  /** set(), remove() and getNested() keep the array well formed, and so does setAll() of a
      well-formed array. */
  lemma AccessorsWellFormed(s: Store, k: string, v: Value, all: Dict, key: string, d: Value)
    requires WellFormed(s.config)
    ensures WellFormed(s.Set(k, v).config) && WellFormed(s.Remove(k).config)
    ensures WellFormed(s.GetNested(key, d).1.config)
    ensures WellFormed(all) ==> WellFormed(s.SetAll(all).config)
  {
    PutWellFormed(s.config, k, v);
  }

  /** setDefaults() and a setNested() that succeeds keep the array well formed. */
  lemma DefaultsNestedWellFormed(s: Store, defaults: Dict, key: string, v: Value)
    requires WellFormed(s.config)
    ensures WellFormed(s.SetDefaults(defaults).config)
    ensures s.SetNested(key, v).Some? ==> WellFormed(s.SetNested(key, v).value.config)
  {
    FillWellFormed(defaults, s.config);
    if s.SetNested(key, v).Some? {
      SetPathWellFormed(s.config, Segments(key), v);
    }
  }
}
