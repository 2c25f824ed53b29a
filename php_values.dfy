/** PHP values as the configuration store sees them, and the handful of array
    operations it performs on them. A PHP array is an ordered hash table: it is
    modelled by the sequence of its keys in insertion order together with a map
    from each key to its value. Keys are strings (PHP's folding of numeric string
    keys into integers changes nothing the store observes). */
module PhpValues {
  import opened PhpStrings

  datatype Option<T> = None | Some(value: T) {
    function GetOr(default: T): T {
      match this
      case Some(v) => v
      case None => default
    }
  }

  datatype Value = Null | Bool(b: bool) | Int(i: int) | Str(s: string) | Arr(a: Dict)

  datatype Dict = Dict(keys: seq<string>, vals: map<string, Value>)

  /** The empty array `[]`. */
  const Empty: Dict := Dict([], map[])

  ghost predicate Distinct(ks: seq<string>) {
    forall i, j :: 0 <= i < j < |ks| ==> ks[i] != ks[j]
  }

  /** Dropping the last key of distinct keys leaves distinct keys without it. */
  lemma DistinctInit(ks: seq<string>)
    requires ks != [] && Distinct(ks)
    ensures Distinct(ks[..|ks| - 1]) && ks[|ks| - 1] !in ks[..|ks| - 1]
  {
    var init := ks[..|ks| - 1];
    forall i, j | 0 <= i < j < |init| ensures init[i] != init[j] {
      assert init[i] == ks[i] && init[j] == ks[j];
    }
    forall j | 0 <= j < |init| ensures init[j] != ks[|ks| - 1] {
      assert init[j] == ks[j];
    }
  }

  /** Every PHP array is well formed: each key is listed once, and the listed keys are the
      keys of the map. */
  ghost predicate WellFormed(d: Dict) {
    Distinct(d.keys) && forall k :: k in d.keys <==> k in d.vals
  }

  /** Well formed at every level of nesting. */
  ghost predicate DeepWellFormed(d: Dict)
    decreases d
  {
    WellFormed(d) && forall k :: k in d.vals ==> ValueWellFormed(d.vals[k])
  }

  ghost predicate ValueWellFormed(v: Value)
    decreases v
  {
    v.Arr? ==> DeepWellFormed(v.a)
  }

  /** isset($d[$k]): the key is present and does not hold null. */
  predicate IsSet(d: Dict, k: string) {
    k in d.vals && !d.vals[k].Null?
  }

  /** $d[$k] = $v: an existing key keeps its position, a new key goes last. */
  function Put(d: Dict, k: string, v: Value): (r: Dict)
    ensures r.vals == d.vals[k := v]
    ensures r.keys == if k in d.vals then d.keys else d.keys + [k]
  {
    Dict(if k in d.vals then d.keys else d.keys + [k], d.vals[k := v])
  }

  /** Assignment keeps an array well formed. */
  lemma PutWellFormed(d: Dict, k: string, v: Value)
    requires WellFormed(d)
    ensures WellFormed(Put(d, k, v))
  {
    var r := Put(d, k, v);
    if k !in d.vals {
      forall i, j | 0 <= i < j < |r.keys| ensures r.keys[i] != r.keys[j] {
        if j == |d.keys| {
          assert r.keys[i] == d.keys[i];
          assert d.keys[i] in d.keys;
        }
      }
    }
  }

  function RemoveKey(ks: seq<string>, k: string): (r: seq<string>)
    ensures forall x :: x in r <==> x in ks && x != k
    ensures Distinct(ks) ==> Distinct(r)
  {
    if ks == [] then []
    else
      var rest := RemoveKey(ks[1..], k);
      assert forall x :: x in ks <==> x == ks[0] || x in ks[1..];
      assert Distinct(ks) ==> Distinct(ks[1..]) && ks[0] !in ks[1..] by {
        if Distinct(ks) {
          forall i, j | 0 <= i < j < |ks[1..]| ensures ks[1..][i] != ks[1..][j] {
            assert ks[1..][i] == ks[i + 1] && ks[1..][j] == ks[j + 1];
          }
          forall j | 0 <= j < |ks[1..]| ensures ks[1..][j] != ks[0] {
            assert ks[1..][j] == ks[j + 1];
          }
        }
      }
      if ks[0] == k then rest else [ks[0]] + rest
  }

  /** unset($d[$k]). */
  function Unset(d: Dict, k: string): (r: Dict)
    ensures r.vals == d.vals - {k}
    ensures forall x :: x in r.keys <==> x in d.keys && x != k
    ensures WellFormed(d) ==> WellFormed(r)
  {
    Dict(RemoveKey(d.keys, k), d.vals - {k})
  }

  /** unset() keeps the order of the other keys: nothing moves when the key is absent, and
      otherwise the key is cut out of its one position. */
  lemma UnsetOrder(d: Dict, k: string)
    ensures k !in d.keys ==> Unset(d, k).keys == d.keys
    ensures Distinct(d.keys) && k in d.keys ==>
      exists i :: 0 <= i <= |Unset(d, k).keys| && d.keys == Unset(d, k).keys[..i] + [k] + Unset(d, k).keys[i..]
  {
    if k !in d.keys {
      RemoveKeyAbsent(d.keys, k);
    } else if Distinct(d.keys) {
      var i := RemoveKeyAt(d.keys, k);
      var r := Unset(d, k).keys;
      assert r == RemoveKey(d.keys, k);
      assert 0 <= i <= |r| && d.keys == r[..i] + [k] + r[i..];
    }
  }

  lemma {:induction false} RemoveKeyAbsent(ks: seq<string>, k: string)
    requires k !in ks
    ensures RemoveKey(ks, k) == ks
  {
    if ks != [] {
      assert k !in ks[1..];
      RemoveKeyAbsent(ks[1..], k);
      assert [ks[0]] + ks[1..] == ks;
    }
  }

  /** The position the key is cut out of. */
  lemma {:induction false} RemoveKeyAt(ks: seq<string>, k: string) returns (i: nat)
    requires Distinct(ks) && k in ks
    ensures var r := RemoveKey(ks, k); i <= |r| && ks == r[..i] + [k] + r[i..]
  {
    var t := ks[1..];
    assert ks == [ks[0]] + t;
    assert Distinct(t) by {
      forall a, b | 0 <= a < b < |t| ensures t[a] != t[b] {
        assert t[a] == ks[a + 1] && t[b] == ks[b + 1];
      }
    }
    if ks[0] == k {
      assert k !in t by {
        forall j | 0 <= j < |t| ensures t[j] != k {
          assert t[j] == ks[j + 1];
        }
      }
      RemoveKeyAbsent(t, k);
      i := 0;
      assert RemoveKey(ks, k) == t;
    } else {
      assert k in t;
      var i' := RemoveKeyAt(t, k);
      i := i' + 1;
      RemoveKeyShift(ks, k, i');
    }
  }

  /** Cutting the key out after a first key that is kept. */
  lemma RemoveKeyShift(ks: seq<string>, k: string, i': nat)
    requires ks != [] && ks[0] != k
    requires var r' := RemoveKey(ks[1..], k); i' <= |r'| && ks[1..] == r'[..i'] + [k] + r'[i'..]
    ensures var r := RemoveKey(ks, k); i' + 1 <= |r| && ks == r[..i' + 1] + [k] + r[i' + 1..]
  {
    var r' := RemoveKey(ks[1..], k);
    assert RemoveKey(ks, k) == [ks[0]] + r';
    ConsSplit(ks[0], r', k, i');
    assert ks == [ks[0]] + ks[1..];
  }

  lemma ConsSplit(h: string, r: seq<string>, k: string, i: nat)
    requires i <= |r|
    ensures var c := [h] + r; c[..i + 1] + [k] + c[i + 1..] == [h] + (r[..i] + [k] + r[i..])
  {
    var c := [h] + r;
    assert c[..i + 1] == [h] + r[..i];
    assert c[i + 1..] == r[i..];
  }

  lemma PutPut(d: Dict, k: string, a: Value, b: Value)
    ensures Put(Put(d, k, a), k, b) == Put(d, k, b)
  {
  }

  /** The values of an array in its order, as foreach and implode() visit them. */
  function ValuesInOrder(d: Dict): (r: seq<Value>)
    ensures |r| == |d.keys|
    ensures forall i :: 0 <= i < |d.keys| && d.keys[i] in d.vals ==> r[i] == d.vals[d.keys[i]]
  {
    seq(|d.keys|, i requires 0 <= i < |d.keys| => if d.keys[i] in d.vals then d.vals[d.keys[i]] else Null)
  }

  /** PHP's conversion of a value to a string, as `.` and implode() perform it. */
  function ToPhpString(v: Value): string {
    match v
    case Null => ""
    case Bool(b) => if b then "1" else ""
    case Int(i) => IntToString(i)
    case Str(s) => s
    case Arr(_) => "Array"
  }

  /** The value at `path` below `v`, following array keys only. */
  function At(v: Value, path: seq<string>): Option<Value>
    decreases |path|
  {
    if path == [] then Some(v)
    else if v.Arr? && path[0] in v.a.vals then At(v.a.vals[path[0]], path[1..])
    else None
  }

  /** The walk getNested performs: every step needs an array holding the next key with a
      value that is set (not null). */
  function Lookup(v: Value, path: seq<string>): (r: Option<Value>)
    ensures r.Some? && path != [] ==> !r.value.Null?
    decreases |path|
  {
    if path == [] then Some(v)
    else if v.Arr? && IsSet(v.a, path[0]) then Lookup(v.a.vals[path[0]], path[1..])
    else None
  }

  /** One step of the isset walk along `path[i..]`. */
  lemma LookupStep(v: Value, path: seq<string>, i: nat)
    requires i < |path|
    ensures Lookup(v, path[i..]) ==
      if v.Arr? && IsSet(v.a, path[i]) then Lookup(v.a.vals[path[i]], path[i + 1..]) else None
  {
    assert path[i..][0] == path[i] && path[i..][1..] == path[i + 1..];
  }

  /** A value reached by array keys that is not null is also reached by the isset walk. */
  lemma {:induction false} AtLookup(v: Value, path: seq<string>)
    requires At(v, path).Some? && !At(v, path).value.Null?
    ensures Lookup(v, path) == At(v, path)
    decreases |path|
  {
    if path != [] {
      var c := v.a.vals[path[0]];
      if |path| > 1 {
        assert c.Arr?;
      }
      AtLookup(c, path[1..]);
    }
  }

  /** What the isset walk finds is what the plain walk finds. */
  lemma {:induction false} LookupAt(v: Value, path: seq<string>)
    requires Lookup(v, path).Some?
    ensures At(v, path) == Lookup(v, path)
    decreases |path|
  {
    if path != [] {
      LookupAt(v.a.vals[path[0]], path[1..]);
    }
  }
}
