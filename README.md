# Config store of SimpleFramework, modelled in Dafny

This project models class `Config` of `src/iTXTech/SimpleFramework/Util/Config.php`. It is a
key-value configuration store backed by one file. `load()` picks the file's type (explicitly,
or by DETECT from its extension) and reads it. It then fills in the defaults and writes the
file back when any default was missing. `save()` writes the array in the store's type.

The model also covers the accessors:

- `get`, `set`, `setAll`, `exists`, `remove`, `getAll` and `setDefaults`;
- the dotted-key pair `getNested` / `setNested`, together with their memo cache `$nestedCache`.

The two text formats the class implements itself are modelled in full: the list format
(`parseList` and the ENUM branch of `save`) and the properties format (`parseProperties` and
`writeProperties`).

Modules, one per file:

- `PhpStrings` (`php_strings.dfy`): the PHP string functions the class uses.
  - `trim`, `strtolower`, `explode`, `implode`, `str_replace("\r\n", "\n", …)` and integer-to-string conversion.
- `PhpValues` (`php_values.dfy`): PHP values and ordered arrays.
  - A `Value` is null, bool, int, string or array. A `Dict` is the array's keys in insertion order plus a map from key to value.
  - Also here: `isset`, `$a[$k] = $v` (`Put`, where an existing key keeps its position), `unset`, and the isset-walk `Lookup` along a path.
- `Defaults` (`defaults.dfy`): `fillDefaults`.
  - `Fill` is the specification: the same left-to-right pass.
  - `FillDefaults` is the imperative loop, proved equal to `Fill`.
  - Lemmas state what the merge achieves, path by path.
- `NestedKeys` (`nested.dfy`): the `.`-separated key paths, and `SetPath`, the array `setNested` builds.
- `ListCodec` (`list_codec.dfy`): the list format.
- `PropertiesCodec` (`properties_codec.dfy`): the properties format.
  - `Matches` models the leftmost-match scan of `preg_match_all('/([a-zA-Z0-9\-_\.]*)=([^\r\n]*)/u', …)`.
- `Formats` (`formats.dfy`): the type constants, the `$formats` table and DETECT's extension rule.
- `ConfigSpec` (`config_spec.dfy`): the object's fields as a value, `Store`, and every operation as a function of it.
  - `load()`, `save()` and `reload()` are functions of the store, the files (path to content) and `Host`.
  - `Host` holds the external JSON, YAML and serialize codecs as function values.
- `ConfigClass` (`config.dfy`): class `Config` with the PHP fields, updated in place by methods, and class `FileSystem` holding the files.
  - Each method is proved to produce exactly the state and result that the matching `ConfigSpec` function gives.
  - The loops of `set`, `getNested`, `setNested`, `parseList`, `parseProperties` and `writeProperties` are `while`/`for` loops with invariants.
  - The walks of `getNested` and `setNested` are the static methods `Walk` and `WalkAndWrite`. The loops of `parseList` and `parseProperties` are `TakeLines` and `TakeMatches`.

Parameters stand in for I/O and similar effects:

- The clock (`date()` in the properties header) is a `stamp` string.
- The file system is the `FileSystem` object.
- The JSON/YAML/serialize libraries are the `Host` functions.
- `Logger` calls are dropped.

Behaviour of the code that the model keeps, and that differs from what one might expect:

- Under DETECT, a missing file is created **empty**. `save()` runs before any type has been chosen, the switch then has no branch, and `file_put_contents` receives `null` (`ConfigSpec.LoadMissingDetect`). The defaults are written only when an explicit type is given.
- `set($k)` drops the cached entries below `"$k."` but not the entry `"$k"` itself. After it, `getNested($k)` can still answer the old value while `get($k)` answers the new one (`ConfigSpec.SetKeepsOwnEntry`).
- `setNested` caches `$value` under its key but does not refresh other cached entries on the path. Only entries whose paths part from it are guaranteed to stay fresh (`ConfigSpec.SetNestedKeepsApart`). `remove` and `setAll` touch no cache entry.
- `setNested` behaves differently depending on what it finds at an intermediate segment:
  - When the segment holds an int, a string or `true`, the model follows PHP 8, where the walk raises an Error before the final assignment. The model returns `false` and leaves the state unchanged. The arrays the walk creates are empty, so such a segment is reached before anything has been created (`NestedKeys.SetPathFails`), with the exception of the string case below.
  - PHP 7 behaves differently. For an int or `true` it only warns, `$base` stays bound to the blocking slot, and `$base = $value` then overwrites that slot and caches the value under the key. For a string, `$base[$baseKey] = []` writes into the string's offset first, and then the reference `=&` fails with "Cannot create references to/from string offsets".
  - A `false` or null intermediate is replaced by a fresh array.
- A default leaf holding `null` is counted again on every `fillDefaults` call, because `isset(null)` is false (`Defaults.FillNullLeafRecounted`). So idempotence holds for defaults without null leaves.

## Model

| member | source | states |
|---|---|---|
| Formats.ExtensionOf | src/iTXTech/SimpleFramework/Util/Config.php:111-112 | defines the extension DETECT uses: `strtolower(trim(…))` of the text after the last `.` of `basename`; its shape is stated by `Formats.ExtensionOfName` |
| Formats.DetectType | src/iTXTech/SimpleFramework/Util/Config.php:110-118 | defines DETECT: the `$formats` entry of the extension, or none; its behaviour is stated by the lemmas below |
| Formats.DetectBareName | src/iTXTech/SimpleFramework/Util/Config.php:110-118 | a bare name `stem.ext` (no directory) is detected as the table entry of `strtolower(trim(ext))`, or not at all when there is none |
| Formats.DetectNoDot | src/iTXTech/SimpleFramework/Util/Config.php:110-118 | a name with no `.` is looked up whole, trimmed and lower-cased, with or without a directory in front |
| Formats.DetectYml | src/iTXTech/SimpleFramework/Util/Config.php:110-118 | `stem.yml` is detected as YAML |
| Formats.DetectUpperJson | src/iTXTech/SimpleFramework/Util/Config.php:110-118 | `stem.JSON` is detected as JSON: the extension is lower-cased before the lookup |
| Formats.DetectUnknown | src/iTXTech/SimpleFramework/Util/Config.php:110-118 | `stem.unknownext` is not detected |
| Formats.DetectByExtension | src/iTXTech/SimpleFramework/Util/Config.php:111-114 | for a path `dir/stem.ext`, DETECT looks up the lower-cased, trimmed text after the last `.` of the base name, whatever the directory and stem |
| Formats.ExtensionOfName | src/iTXTech/SimpleFramework/Util/Config.php:111-112 | the extension of `dir/stem.ext` is `strtolower(trim(ext))` |
| Formats.DetectSupported | src/iTXTech/SimpleFramework/Util/Config.php:44-60 | every type in the `$formats` table, and so every type DETECT yields, is one that `load()` reads and `save()` writes |
| Formats.AfterLastSlash | src/iTXTech/SimpleFramework/Util/Config.php:111 | the base name is the suffix after the last `/`, contains no `/`, and is preceded by `/` when shorter than the path |
| ConfigSpec.LoadDetectMiss | src/iTXTech/SimpleFramework/Util/Config.php:110-118 | under DETECT with an unknown extension: load returns false, `correct` is cleared, the type stays DETECT, the array is kept, and nothing is read or written |
| ConfigSpec.LoadExisting | src/iTXTech/SimpleFramework/Util/Config.php:119-156 | for an existing file, load succeeds exactly when the resolved type is one it has a branch for; the result always equals `correct`; a failed load writes nothing and keeps the array |
| ConfigSpec.LoadMissingFile | src/iTXTech/SimpleFramework/Util/Config.php:103-108 | a missing file: the defaults (`[]` when not an array) become the array and are saved under the given type; load returns true |
| ConfigSpec.LoadMissingDetect | src/iTXTech/SimpleFramework/Util/Config.php:106-108 | a missing file under DETECT is written as the empty text |
| ConfigSpec.LoadNotArray | src/iTXTech/SimpleFramework/Util/Config.php:144-146 | a decoder result that is not an array is replaced by the defaults |
| ConfigSpec.LoadSetsDefaults | src/iTXTech/SimpleFramework/Util/Config.php:144-149 | after a successful load every non-null scalar leaf of the defaults is set in the array |
| ConfigSpec.LoadSavesWhenFilled | src/iTXTech/SimpleFramework/Util/Config.php:147-149 | an existing file is written back exactly when `fillDefaults` reported insertions, with the filled array |
| ConfigSpec.SaveWrites | src/iTXTech/SimpleFramework/Util/Config.php:162-193 | save writes the encoding of the array under the store's type and returns true when `correct`; otherwise it returns false and writes nothing |
| ConfigSpec.Encoded | src/iTXTech/SimpleFramework/Util/Config.php:165-184 | defines the text `save()` writes per type, the empty text for a type without a branch; its round trips are the two lemmas below |
| ConfigSpec.EncodedList | src/iTXTech/SimpleFramework/Util/Config.php:180-181 | the ENUM text of an array with non-blank, trimmed single-line keys reads back as those keys, in order, each mapped to true |
| ConfigSpec.EncodedProperties | src/iTXTech/SimpleFramework/Util/Config.php:167-169 | the properties text of an array under key-class keys with single-line values reads back as the keys, in order, with the coerced text of each value |
| ConfigSpec.Decoded | src/iTXTech/SimpleFramework/Util/Config.php:121-143 | `load()` has a reader exactly for the supported types |
| ConfigSpec.Load | src/iTXTech/SimpleFramework/Util/Config.php:99-156 | defines `load()` on the store and the files; its behaviour is stated by the `Load…` lemmas |
| ConfigSpec.ReadAs | src/iTXTech/SimpleFramework/Util/Config.php:119-149 | defines the read of an existing file under a resolved type, the fallback to the defaults, the fill and the save; stated through `LoadExisting`, `LoadNotArray`, `LoadSetsDefaults` and `LoadSavesWhenFilled` |
| ConfigSpec.Save | src/iTXTech/SimpleFramework/Util/Config.php:162-193 | defines `save()`; stated by `ConfigSpec.SaveWrites` |
| ConfigSpec.Reload | src/iTXTech/SimpleFramework/Util/Config.php:76-81 | defines `reload()` as `load()` of an emptied store under the same file and type; stated by `ReloadForgets` and `ReloadDecoded` |
| ConfigSpec.LoadWellFormed | src/iTXTech/SimpleFramework/Util/Config.php:99-156 | given well-formed defaults, a well-formed array and decoders yielding well-formed arrays, `load()` leaves a well-formed array |
| ConfigSpec.ReloadWellFormed | src/iTXTech/SimpleFramework/Util/Config.php:76-81 | `reload()` leaves a well-formed array when the decoders yield well-formed arrays |
| ConfigSpec.DecodedWellFormed | src/iTXTech/SimpleFramework/Util/Config.php:121-143 | the array each reader yields is well formed: the properties and list readers keep it so, the library decoders by assumption on `Host` |
| ConfigSpec.ReloadForgets | src/iTXTech/SimpleFramework/Util/Config.php:76-81 | reload depends only on the file and the type, not on what is in memory |
| ConfigSpec.ReloadDecoded | src/iTXTech/SimpleFramework/Util/Config.php:76-81 | reloading under an explicit type whose reader yields an array gives that array, an empty cache and no write |
| ConfigSpec.SaveReloadList | src/iTXTech/SimpleFramework/Util/Config.php:180-181 | save then reload of a list store gives back every key, in order, mapped to true, and writes nothing more |
| ConfigSpec.SaveReloadProperties | src/iTXTech/SimpleFramework/Util/Config.php:167-169 | save then reload of a properties store gives back every key, in order, with the coerced text of its value, and writes nothing more |
| ConfigSpec.Store.Get | src/iTXTech/SimpleFramework/Util/Config.php:291-293 | defines `get`; stated by `GetDefault`, `GetAfterSet` and `GetAfterRemove` |
| ConfigSpec.Store.Set | src/iTXTech/SimpleFramework/Util/Config.php:299-306 | defines `set`; stated by `SetFrame`, `SetKeepsFresh` and `SetKeepsOwnEntry` |
| ConfigSpec.Store.SetAll | src/iTXTech/SimpleFramework/Util/Config.php:311-313 | defines `setAll`: the array is replaced and nothing else changes |
| ConfigSpec.Store.Exists | src/iTXTech/SimpleFramework/Util/Config.php:321-329 | defines `exists`; stated by `ExistsLowercase` |
| ConfigSpec.Store.Remove | src/iTXTech/SimpleFramework/Util/Config.php:334-336 | defines `remove`; stated by `GetAfterRemove` |
| ConfigSpec.Store.GetAll | src/iTXTech/SimpleFramework/Util/Config.php:343-345 | defines `getAll`; stated by `GetAllListing` |
| ConfigSpec.Store.SetDefaults | src/iTXTech/SimpleFramework/Util/Config.php:350-352 | defines `setDefaults`; stated by `SetDefaultsLeaves` |
| ConfigSpec.Store.GetNested | src/iTXTech/SimpleFramework/Util/Config.php:260-283 | defines `getNested`; stated by `GetNestedCoherent` and `GetNestedMiss` |
| ConfigSpec.Store.SetNested | src/iTXTech/SimpleFramework/Util/Config.php:232-252 | defines `setNested`; stated by `SetNestedThenGetNested` and `SetNestedKeepsApart` |
| ConfigSpec.AccessorsWellFormed | src/iTXTech/SimpleFramework/Util/Config.php:299-343 | `set`, `remove` and `getNested` keep the array well formed, and so does `setAll` of a well-formed array |
| ConfigSpec.DefaultsNestedWellFormed | src/iTXTech/SimpleFramework/Util/Config.php:232-252 | `setDefaults` and a successful `setNested` keep the array well formed |
| ConfigSpec.GetDefault | src/iTXTech/SimpleFramework/Util/Config.php:291-293 | `get` answers the default when the store is not correct or the key is unset |
| ConfigSpec.GetAfterSet | src/iTXTech/SimpleFramework/Util/Config.php:291-306 | after `set(k, v)`, `get(k)` is `v` when the store is correct and `v` is not null, and the default otherwise; other keys read as before |
| ConfigSpec.SetFrame | src/iTXTech/SimpleFramework/Util/Config.php:299-306 | `set` writes one key of the array; a cache entry survives exactly when its key does not start with `k.`, with its value unchanged |
| ConfigSpec.SetKeepsFresh | src/iTXTech/SimpleFramework/Util/Config.php:299-306 | every fresh cache entry other than `k`'s own stays fresh after `set(k)`, and the entries below `k.` are gone |
| ConfigSpec.SetKeepsOwnEntry | src/iTXTech/SimpleFramework/Util/Config.php:299-306 | `set(k)` keeps the entry `k` of the cache, so `getNested(k)` still answers the old value while `get(k)` answers the new one |
| ConfigSpec.FirstSegment | src/iTXTech/SimpleFramework/Util/Config.php:302 | for a key without `.`, the keys whose first segment is that key are the key itself and those starting with the key followed by `.` |
| ConfigSpec.GetAfterRemove | src/iTXTech/SimpleFramework/Util/Config.php:334-336 | after `remove(k)`, `get(k)` is the default and `exists(k)` false; other keys and the cache are unchanged |
| ConfigSpec.ExistsLowercase | src/iTXTech/SimpleFramework/Util/Config.php:321-329 | `exists(k, true)` holds exactly when some key equals `k` up to case and the last such key holds a set value |
| ConfigSpec.LowerKeysValues | src/iTXTech/SimpleFramework/Util/Config.php:324 | `array_change_key_case` keeps every folded key, with the value of the last key that folds to it |
| ConfigSpec.GetAllListing | src/iTXTech/SimpleFramework/Util/Config.php:343-345 | `getAll(true)` lists each key once, and exactly the keys; `getAll()` is the array |
| ConfigSpec.SetDefaultsLeaves | src/iTXTech/SimpleFramework/Util/Config.php:350-352 | `setDefaults` leaves at every leaf path of the defaults what the array set there, or else the default; cache and flags untouched |
| ConfigSpec.GetNestedCoherent | src/iTXTech/SimpleFramework/Util/Config.php:260-283 | with a coherent cache, `getNested` answers what walking the array answers, and the cache stays coherent |
| ConfigSpec.GetNestedMiss | src/iTXTech/SimpleFramework/Util/Config.php:265-280 | when nothing is cached and the walk fails, the default is returned and the state is unchanged |
| ConfigSpec.SetNestedThenGetNested | src/iTXTech/SimpleFramework/Util/Config.php:232-283 | after a successful `setNested(key, v)`, `getNested(key, d)` is `v` when `v` is not null and `d` when it is; the new cache entry is fresh |
| ConfigSpec.SetNestedKeepsApart | src/iTXTech/SimpleFramework/Util/Config.php:232-252 | a fresh cache entry whose path parts from the written path stays fresh |
| NestedKeys.SetPath | src/iTXTech/SimpleFramework/Util/Config.php:236-250 | defines the array `setNested` builds, or none when the walk blocks; stated by the `SetPath…` lemmas |
| NestedKeys.SetPathWellFormed | src/iTXTech/SimpleFramework/Util/Config.php:236-250 | a successful `setNested` keeps the array well formed |
| NestedKeys.SetPathPlaces | src/iTXTech/SimpleFramework/Util/Config.php:232-250 | after `setNested` the value sits at the key's path and every shorter prefix of the path holds an array |
| NestedKeys.SetPathFails | src/iTXTech/SimpleFramework/Util/Config.php:236-248 | `setNested` fails exactly when a proper prefix of the path reaches, by the isset walk, an int, a string or `true` |
| NestedKeys.SetPathEmpty | src/iTXTech/SimpleFramework/Util/Config.php:236-248 | `setNested` into an empty array always succeeds |
| NestedKeys.SetPathTopLevel | src/iTXTech/SimpleFramework/Util/Config.php:236-240 | `setNested` changes only the top-level slot of the first segment, appended when new |
| NestedKeys.SetPathFrame | src/iTXTech/SimpleFramework/Util/Config.php:240-250 | every path that parts from the written path keeps its value |
| NestedKeys.LookupNullLeaf | src/iTXTech/SimpleFramework/Util/Config.php:275 | the isset walk finds nothing where null is stored |
| NestedKeys.SegmentsDot | src/iTXTech/SimpleFramework/Util/Config.php:233-234 | `explode(".", k . "." . rest)` for a key without `.` is `k` followed by the pieces of `rest` |
| Defaults.Fill | src/iTXTech/SimpleFramework/Util/Config.php:360-375 | defines `fillDefaults` as the left-to-right pass over the defaults; stated by the lemmas below |
| Defaults.FillKey | src/iTXTech/SimpleFramework/Util/Config.php:362-371 | defines one turn of the foreach; stated by `FillAtKey` and, through the pass, by the lemmas below |
| Defaults.FillDefaults | src/iTXTech/SimpleFramework/Util/Config.php:360-375 | the loop over the defaults computes the filled array and the count that `Fill` specifies |
| Defaults.FillTurn | src/iTXTech/SimpleFramework/Util/Config.php:362-371 | one turn of the foreach merges a nested default into the slot's array, or copies a scalar default into an unset slot, as `FillKey` specifies |
| Defaults.FillKeepsSetScalars | src/iTXTech/SimpleFramework/Util/Config.php:362-371 | a key set in the data whose default is a scalar, or which has no default, keeps its value |
| Defaults.FillPathFrame | src/iTXTech/SimpleFramework/Util/Config.php:362-371 | at a path the defaults do not reach, the result holds what the data held, provided the data has arrays wherever the defaults descend on the way |
| Defaults.FillAtKey | src/iTXTech/SimpleFramework/Util/Config.php:362-371 | at a key of the defaults the result holds the merged array of a nested default, or for a scalar default the data's set value, else the default |
| Defaults.FillWellFormed | src/iTXTech/SimpleFramework/Util/Config.php:360-375 | the result is a well-formed array when the data is |
| Defaults.FillLeaf | src/iTXTech/SimpleFramework/Util/Config.php:362-371 | at every leaf path of the defaults the result holds the data's set value there, or else the default |
| Defaults.FillSetsEveryLeaf | src/iTXTech/SimpleFramework/Util/Config.php:362-371 | afterwards every non-null scalar leaf path of the defaults is set |
| Defaults.FillOrder | src/iTXTech/SimpleFramework/Util/Config.php:362-371 | the result lists the data's keys first, then the new keys in the order of the defaults |
| Defaults.FillCount | src/iTXTech/SimpleFramework/Util/Config.php:361-374 | the count equals the number of leaf paths of the defaults the data does not set; creating `[]` slots adds nothing |
| Defaults.FillIdempotent | src/iTXTech/SimpleFramework/Util/Config.php:361-374 | for defaults without null leaves, a second call returns 0 |
| Defaults.FillNullLeafRecounted | src/iTXTech/SimpleFramework/Util/Config.php:368-370 | a null default leaf that the data misses is counted by the first call and again by the second |
| PhpValues.PutWellFormed | src/iTXTech/SimpleFramework/Util/Config.php:300 | `$this->config[$k] = $v` keeps the array well formed: its keys stay distinct and are exactly the keys it holds |
| PhpValues.Unset | src/iTXTech/SimpleFramework/Util/Config.php:335 | `unset` removes exactly the key from the values and from the order, and keeps the array well formed |
| PhpValues.UnsetOrder | src/iTXTech/SimpleFramework/Util/Config.php:335 | `unset` of an absent key keeps the order; of a present key it removes that one position and keeps the other keys in order |
| PhpValues.LookupAt | src/iTXTech/SimpleFramework/Util/Config.php:266-278 | whatever the isset walk finds is also what plain indexing along the path reaches |
| PhpValues.AtLookup | src/iTXTech/SimpleFramework/Util/Config.php:266-278 | a non-null value reached by plain indexing is found by the isset walk too |
| PhpStrings.TrimSpec | src/iTXTech/SimpleFramework/Util/Config.php:382 | `trim` yields a substring whose ends are not blanks, after removing blanks only, and leaves a string without such blanks unchanged |
| ListCodec.ReadIntoSpec | src/iTXTech/SimpleFramework/Util/Config.php:380-388 | after CRLF becomes LF, a key is set to true exactly when it is a non-blank trimmed line of the content; other keys keep their values |
| ListCodec.PutTrueValues | src/iTXTech/SimpleFramework/Util/Config.php:386 | each token ends up true; keys not among the tokens keep their value |
| ListCodec.TokensClean | src/iTXTech/SimpleFramework/Util/Config.php:382-385 | every token is non-empty and trimmed |
| ListCodec.ScanTokens | src/iTXTech/SimpleFramework/Util/Config.php:381-387 | the line-by-line loop equals putting the tokens in order |
| ListCodec.ReadInto | src/iTXTech/SimpleFramework/Util/Config.php:380-388 | defines `parseList` on the array; stated by `ReadIntoSpec` and `ListRoundTrip` |
| ListCodec.Write | src/iTXTech/SimpleFramework/Util/Config.php:181 | defines the ENUM text, the keys joined by CRLF; stated by `ListRoundTrip` |
| ListCodec.ReadIntoWellFormed | src/iTXTech/SimpleFramework/Util/Config.php:380-388 | `parseList` keeps the array well formed |
| ListCodec.PutTrueWellFormed | src/iTXTech/SimpleFramework/Util/Config.php:386 | setting tokens to true one by one keeps the array well formed |
| ListCodec.ListRoundTrip | src/iTXTech/SimpleFramework/Util/Config.php:181 | reading back what the ENUM branch wrote recovers every key in order, each mapped to true, when keys are non-blank, trimmed single lines |
| ListCodec.ListExample | src/iTXTech/SimpleFramework/Util/Config.php:181 | the array foo, bar, baz (all true) is written as `foo\r\nbar\r\nbaz` and reads back unchanged |
| PropertiesCodec.Matches | src/iTXTech/SimpleFramework/Util/Config.php:411 | defines the leftmost, non-overlapping match scan of the properties pattern; stated by `KeyRunSpec`, `LineEndSpec` and `MatchesLine` |
| PropertiesCodec.Coerce | src/iTXTech/SimpleFramework/Util/Config.php:413-425 | defines the value coercion; stated by `CoerceSpec` |
| PropertiesCodec.ReadInto | src/iTXTech/SimpleFramework/Util/Config.php:410-432 | defines `parseProperties` on the array; stated by `ReadIntoLastWins`, `ReadIntoUntouched` and `PropertiesRoundTrip` |
| PropertiesCodec.Text | src/iTXTech/SimpleFramework/Util/Config.php:396-400 | defines the text of a value in a properties line; stated by `ReadBackPlain` |
| PropertiesCodec.Write | src/iTXTech/SimpleFramework/Util/Config.php:393-405 | defines `writeProperties`; stated by `BodySnoc` and `PropertiesRoundTrip` |
| PropertiesCodec.ReadIntoWellFormed | src/iTXTech/SimpleFramework/Util/Config.php:410-432 | `parseProperties` keeps the array well formed |
| PropertiesCodec.PutAllWellFormed | src/iTXTech/SimpleFramework/Util/Config.php:429 | the assignments of the matches, one by one, keep the array well formed |
| PropertiesCodec.CoerceSpec | src/iTXTech/SimpleFramework/Util/Config.php:413-425 | a value is true for on/true/yes and false for off/false/no, in any case and with blanks around; otherwise it is the trimmed string |
| PropertiesCodec.KeyRunSpec | src/iTXTech/SimpleFramework/Util/Config.php:411 | the key group is the longest run of `[a-zA-Z0-9\-_\.]` characters |
| PropertiesCodec.LineEndSpec | src/iTXTech/SimpleFramework/Util/Config.php:411 | the value group runs up to the first CR or LF |
| PropertiesCodec.MatchesLine | src/iTXTech/SimpleFramework/Util/Config.php:411 | a line `k=t\r\n` with key-class `k` and single-line `t` yields the match `(k, t)`, then the matches of the rest |
| PropertiesCodec.ReadIntoLastWins | src/iTXTech/SimpleFramework/Util/Config.php:412-430 | a key's value is the coerced text of its last match, so a repeated key keeps the last value |
| PropertiesCodec.ReadIntoUntouched | src/iTXTech/SimpleFramework/Util/Config.php:412-430 | a key no match names keeps its earlier value |
| PropertiesCodec.RepeatedKey | src/iTXTech/SimpleFramework/Util/Config.php:426-429 | two lines for the same key leave one key holding the later value |
| PropertiesCodec.BodySnoc | src/iTXTech/SimpleFramework/Util/Config.php:395-402 | writing proceeds one `k=v\r\n` line per entry, in order |
| PropertiesCodec.ReadBackPlain | src/iTXTech/SimpleFramework/Util/Config.php:396-398 | a boolean is written as on/off and reads back as the same boolean, and a plain string reads back unchanged |
| PropertiesCodec.PropertiesRoundTrip | src/iTXTech/SimpleFramework/Util/Config.php:393-432 | reading what `writeProperties` wrote gives every key back, in order, with the coerced text of its value |
| PropertiesCodec.PropertiesRoundTripExact | src/iTXTech/SimpleFramework/Util/Config.php:393-432 | an array of booleans and plain strings under key-class keys survives a write and a read exactly |
| ConfigClass.Config.Load | src/iTXTech/SimpleFramework/Util/Config.php:99-156 | the method's result, fields and files are those of `ConfigSpec.Load` |
| ConfigClass.Config.Read | src/iTXTech/SimpleFramework/Util/Config.php:119-149 | reading, fallback, filling and saving agree with `ConfigSpec.ReadAs` |
| ConfigClass.Config.Decode | src/iTXTech/SimpleFramework/Util/Config.php:121-143 | the switch yields `ConfigSpec.Decoded` and changes no field but the array |
| ConfigClass.Config.Reload | src/iTXTech/SimpleFramework/Util/Config.php:76-81 | fields and files afterwards are those of `ConfigSpec.Reload` |
| ConfigClass.Config.constructor | src/iTXTech/SimpleFramework/Util/Config.php:68-71 | a fresh object loaded as `ConfigSpec.Load` describes |
| ConfigClass.Config.Check | src/iTXTech/SimpleFramework/Util/Config.php:158-160 | `check()` reads the `correct` field |
| ConfigClass.Config.Save | src/iTXTech/SimpleFramework/Util/Config.php:162-193 | result and files are those of `ConfigSpec.Save` |
| ConfigClass.Config.Set | src/iTXTech/SimpleFramework/Util/Config.php:299-306 | the loop over the cache leaves exactly the state `Store.Set` gives |
| ConfigClass.Config.SetAll | src/iTXTech/SimpleFramework/Util/Config.php:311-313 | the array is replaced, nothing else changes |
| ConfigClass.Config.Remove | src/iTXTech/SimpleFramework/Util/Config.php:334-336 | the key is unset, nothing else changes |
| ConfigClass.Config.SetDefaults | src/iTXTech/SimpleFramework/Util/Config.php:350-352 | the array becomes the filled array, nothing else changes |
| ConfigClass.Config.GetNested | src/iTXTech/SimpleFramework/Util/Config.php:260-283 | the walk returns and caches what `Store.GetNested` gives, and writes the cache only on success |
| ConfigClass.Config.Walk | src/iTXTech/SimpleFramework/Util/Config.php:266-280 | the walk down the array finds exactly what the isset walk `Lookup` finds along the key's segments, and fails exactly where it fails |
| ConfigClass.Config.WalkAndWrite | src/iTXTech/SimpleFramework/Util/Config.php:233-250 | the walk that creates arrays on the way, then writes the value, yields the array `SetPath` describes and fails exactly where it fails |
| ConfigClass.Config.SetNested | src/iTXTech/SimpleFramework/Util/Config.php:232-252 | returns false with nothing changed exactly when `SetPath` fails; otherwise the array and cache of `Store.SetNested` |
| ConfigClass.Config.ParseList | src/iTXTech/SimpleFramework/Util/Config.php:380-388 | the array becomes `ListCodec.ReadInto` of the old array and the content |
| ConfigClass.Config.TakeLines | src/iTXTech/SimpleFramework/Util/Config.php:381-387 | the loop over the lines sets exactly the tokens to true, in order |
| ConfigClass.Config.ParseProperties | src/iTXTech/SimpleFramework/Util/Config.php:410-432 | the array becomes `PropertiesCodec.ReadInto` of the old array and the content |
| ConfigClass.Config.TakeMatches | src/iTXTech/SimpleFramework/Util/Config.php:412-430 | the loop performs one assignment per match, in order, of the coerced value |
| ConfigClass.Config.WriteProperties | src/iTXTech/SimpleFramework/Util/Config.php:393-405 | the text built line by line is `PropertiesCodec.Write` of the array |

## Left out

- JSON, YAML and native serialization: `json_decode`/`json_encode`, `yaml_parse`/`yaml_emit` and `unserialize`/`serialize` are library calls. They are the uninterpreted functions of `Host`, so nothing is proved about their round trips.
- `fixYAMLIndexes` is a regular-expression rewrite applied only before the YAML parser. It is folded into `Host.yamlParse`.
- File I/O is modelled with no failures. `file_exists`, `file_get_contents` and `file_put_contents` become a map from path to content. Read and write errors, the try/catch in `save()` and the `Logger` calls (including the repeated-property debug line) are not modelled. `save()` on a correct store always reports true, as the code does.
- `ConfigSpec.Encoded`: an encoder that fails (`json_encode` returning false) is not distinguished from one returning text. The `Host` function simply yields the text written.
- The clock: `date("D M j H:i:s T Y")` in the properties header is the `stamp` parameter. The round trip requires the stamp to contain no `=`.
- Floating-point values are not in `Value`. PHP's folding of numeric-string keys into integer keys is not modelled: keys are strings.
- `ConfigClass.Config.SetAll` takes an array. The PHP `setAll` accepts any value, and a non-array would break later array accesses.
- `ConfigSpec.Store.GetAll`: `getAll(true)` returns the key list as a sequence, not as the PHP list array with keys 0..n-1.
- `PropertiesCodec.Matches`: the `/u` modifier's rejection of invalid UTF-8 (where `preg_match_all` returns false) is not modelled. Strings are sequences of characters.
- `Formats.Basename`: `basename()` is modelled for `/` separators only, as on Unix. Backslashes and locale effects are not modelled.
- `ConfigSpec.Store.SetNested`: when an intermediate segment holds an int or `true`, the model follows PHP 8's Error and changes nothing. PHP 7's outcome, a warning followed by the value overwriting the blocking slot and being cached, is not modelled. The method returns false where the PHP method returns nothing.
- `ConfigSpec.Store.SetNested`: when an intermediate segment holds a string, PHP writes into the string's offset before the reference fails. The model leaves the string unchanged.
- Concrete examples of the properties coercion on particular words are not included. `PropertiesCodec.CoerceSpec` states the rule for every word.
- `__get`, `__set`, `__isset` and `__unset` only forward to `get`, `set`, `exists` and `remove`, and are not separately modelled.
