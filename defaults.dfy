/** fillDefaults (Util/Config.php): the recursive gap-filler that copies into a
    configuration every default the configuration does not already set, and
    counts the scalar defaults it copied.

    `Fill` is the specification, written as the same left-to-right pass over the
    keys of the defaults that the PHP foreach makes; `FillDefaults` is the
    imperative pass itself. The lemmas below say what the pass achieves,
    stated over leaf paths rather than over the pass. */
module Defaults {
  import opened PhpValues

  /** The array a nested default is merged into: the slot's own array, or `[]` when the slot
      is unset or holds something else. */
  function Slot(data: Dict, k: string): Dict {
    if k in data.vals && data.vals[k].Arr? then data.vals[k].a else Empty
  }

  /** One turn of the foreach, for default key `k`: the new data and the insertions it made. */
  function FillKey(def: Dict, k: string, data: Dict): (Dict, nat)
    decreases def, 0
  {
    if k !in def.vals then (data, 0)
    else
      match def.vals[k]
      case Arr(sub) =>
        var r := Fill(sub, Slot(data, k));
        (Put(data, k, Arr(r.0)), r.1)
      case v =>
        if IsSet(data, k) then (data, 0) else (Put(data, k, v), 1)
  }

  /** The foreach over the keys `ks` (a prefix of the defaults' keys), turn by turn. */
  function FillKeys(def: Dict, ks: seq<string>, data: Dict): (Dict, nat)
    decreases def, |ks|
  {
    if ks == [] then (data, 0)
    else
      var r1 := FillKeys(def, ks[..|ks| - 1], data);
      var r2 := FillKey(def, ks[|ks| - 1], r1.0);
      (r2.0, r1.1 + r2.1)
  }

  /** fillDefaults($def, $data): the filled data and the returned count. */
  function Fill(def: Dict, data: Dict): (Dict, nat)
    decreases def, |def.keys| + 1
  {
    FillKeys(def, def.keys, data)
  }

  /** The PHP method: it rewrites `data` key by key and accumulates `changed`. */
  method FillDefaults(def: Dict, data: Dict) returns (r: Dict, changed: nat)
    ensures (r, changed) == Fill(def, data)
    decreases def, 1
  {
    r, changed := data, 0;
    FillKeysEnds(def, data);
    for i := 0 to |def.keys|
      invariant (r, changed) == FillKeys(def, def.keys[..i], data)
    {
      var r', added := FillTurn(def, def.keys[i], r);
      FillKeysStep(def, i, data, r, changed, r', added);
      r, changed := r', changed + added;
    }
  }

  /** The pass starts from the data with nothing counted and ends as `Fill`. */
  lemma FillKeysEnds(def: Dict, data: Dict)
    ensures FillKeys(def, def.keys[..0], data) == (data, 0)
    ensures FillKeys(def, def.keys[..|def.keys|], data) == Fill(def, data)
  {
    assert def.keys[..0] == [];
    assert def.keys[..|def.keys|] == def.keys;
  }

  /** The body of the foreach for the default key `k`: a nested default is merged into the
      slot (made an array first when it is not one), a scalar one is copied when the slot is
      not set. */
  method FillTurn(def: Dict, k: string, data: Dict) returns (r: Dict, added: nat)
    ensures (r, added) == FillKey(def, k, data)
    decreases def, 0
  {
    r, added := data, 0;
    if k in def.vals {
      var v := def.vals[k];
      if v.Arr? {
        if !(IsSet(r, k) && r.vals[k].Arr?) {
          r := Put(r, k, Arr(Empty));
        }
        assert r.vals[k].a == Slot(data, k);
        var sub, c := FillDefaults(v.a, r.vals[k].a);
        FillKeyArr(def, k, data, sub, c);
        r := Put(r, k, Arr(sub));
        PutPut(data, k, Arr(Empty), Arr(sub));
        added := c;
      } else if !IsSet(r, k) {
        r := Put(r, k, v);
        added := 1;
      }
    }
  }

  /** The pass over one more key of the defaults is one more turn. */
  lemma FillKeysStep(def: Dict, i: nat, data: Dict, r: Dict, c: nat, r': Dict, a: nat)
    requires i < |def.keys|
    requires (r, c) == FillKeys(def, def.keys[..i], data)
    requires (r', a) == FillKey(def, def.keys[i], r)
    ensures (r', c + a) == FillKeys(def, def.keys[..i + 1], data)
  {
    PrefixSnoc(def.keys, i);
    FillKeysLast(def, def.keys[..i + 1], data);
  }

  lemma PrefixSnoc(ks: seq<string>, i: nat)
    requires i < |ks|
    ensures var p := ks[..i + 1]; |p| == i + 1 && p[..i] == ks[..i] && p[i] == ks[i]
  {
  }

  /** The definition of the pass, one turn from the end. */
  lemma FillKeysLast(def: Dict, ks: seq<string>, data: Dict)
    requires ks != []
    ensures var r1 := FillKeys(def, ks[..|ks| - 1], data); var r2 := FillKey(def, ks[|ks| - 1], r1.0);
      FillKeys(def, ks, data) == (r2.0, r1.1 + r2.1)
  {
  }

  /** A turn for a nested default merges it into the slot's array. */
  lemma FillKeyArr(def: Dict, k: string, data: Dict, sub: Dict, c: nat)
    requires k in def.vals && def.vals[k].Arr?
    requires (sub, c) == Fill(def.vals[k].a, Slot(data, k))
    ensures FillKey(def, k, data) == (Put(data, k, Arr(sub)), c)
  {
  }

  /** fillDefaults keeps the data a well-formed array: it only assigns keys. */
  lemma FillWellFormed(def: Dict, data: Dict)
    requires WellFormed(data)
    ensures WellFormed(Fill(def, data).0)
  {
    FillKeysWellFormed(def, def.keys, data);
  }

  lemma {:induction false} FillKeysWellFormed(def: Dict, ks: seq<string>, data: Dict)
    requires WellFormed(data)
    ensures WellFormed(FillKeys(def, ks, data).0)
    decreases |ks|
  {
    if ks != [] {
      var d1 := FillKeys(def, ks[..|ks| - 1], data).0;
      FillKeysWellFormed(def, ks[..|ks| - 1], data);
      FillKeyWellFormed(def, ks[|ks| - 1], d1);
    }
  }

  lemma FillKeyWellFormed(def: Dict, k: string, data: Dict)
    requires WellFormed(data)
    ensures WellFormed(FillKey(def, k, data).0)
  {
    if k in def.vals {
      match def.vals[k] {
        case Arr(sub) => PutWellFormed(data, k, Arr(Fill(sub, Slot(data, k)).0));
        case v => PutWellFormed(data, k, v);
      }
    }
  }

  // ---------------------------------------------------------------------------
  // Leaf paths

  /** The paths from the root of `d` to its scalar leaves (null included). */
  ghost function LeafPaths(d: Dict): set<seq<string>>
    decreases d
  {
    set k, p | k in d.vals && p in PathsBelow(d.vals[k]) :: [k] + p
  }

  ghost function PathsBelow(v: Value): set<seq<string>>
    decreases v
  {
    if v.Arr? then LeafPaths(v.a) else {[]}
  }

  /** The leaf paths of `def` that `data` does not set: the gaps fillDefaults fills. */
  ghost function Missing(def: Dict, data: Dict): set<seq<string>> {
    set p | p in LeafPaths(def) && Lookup(Arr(data), p).None?
  }

  /** Defaults without a null leaf. */
  ghost predicate NoNullLeaf(def: Dict) {
    forall p :: p in LeafPaths(def) ==> At(Arr(def), p) != Some(Null)
  }

  lemma LeafPathsMember(d: Dict, p: seq<string>)
    requires p in LeafPaths(d)
    ensures p != [] && p[0] in d.vals && p[1..] in PathsBelow(d.vals[p[0]])
  {
    var k, q :| k in d.vals && q in PathsBelow(d.vals[k]) && p == [k] + q;
    assert p[1..] == q;
  }

  lemma LeafPathsIntro(d: Dict, k: string, q: seq<string>)
    requires k in d.vals && q in PathsBelow(d.vals[k])
    ensures [k] + q in LeafPaths(d)
  {
  }

  /** Every leaf path ends at a scalar. */
  lemma {:induction false} LeafPathAt(d: Dict, p: seq<string>)
    requires p in LeafPaths(d)
    ensures At(Arr(d), p).Some? && !At(Arr(d), p).value.Arr?
    decreases d
  {
    LeafPathsMember(d, p);
    var v := d.vals[p[0]];
    if v.Arr? {
      LeafPathAt(v.a, p[1..]);
    }
  }

  // ---------------------------------------------------------------------------
  // Locality: one turn changes only its own key.

  lemma FillKeyOthers(def: Dict, k: string, data: Dict, x: string)
    requires x != k
    ensures var r := FillKey(def, k, data).0;
      (x in r.vals <==> x in data.vals) && (x in data.vals ==> r.vals[x] == data.vals[x])
  {
  }

  lemma {:induction false} FillKeysOutside(def: Dict, ks: seq<string>, data: Dict, x: string)
    requires x !in ks
    ensures var r := FillKeys(def, ks, data).0;
      (x in r.vals <==> x in data.vals) && (x in data.vals ==> r.vals[x] == data.vals[x])
    decreases |ks|
  {
    if ks != [] {
      assert x !in ks[..|ks| - 1];
      FillKeysOutside(def, ks[..|ks| - 1], data, x);
      FillKeyOthers(def, ks[|ks| - 1], FillKeys(def, ks[..|ks| - 1], data).0, x);
    }
  }

  /** The keys of a turn's result: new keys go last, in the order of the defaults. */
  ghost function Added(ks: seq<string>, data: Dict): seq<string> {
    if ks == [] then []
    else Added(ks[..|ks| - 1], data) + (if ks[|ks| - 1] in data.vals then [] else [ks[|ks| - 1]])
  }

  /** fillDefaults keeps the existing keys in place and appends the missing default keys in
      the defaults' order. */
  lemma {:induction false} FillKeysOrder(def: Dict, ks: seq<string>, data: Dict)
    requires Distinct(ks) && forall k :: k in ks ==> k in def.vals
    ensures FillKeys(def, ks, data).0.keys == data.keys + Added(ks, data)
    decreases |ks|
  {
    if ks != [] {
      var init := ks[..|ks| - 1];
      var k := ks[|ks| - 1];
      DistinctInit(ks);
      FillKeysOrder(def, init, data);
      FillKeysOutside(def, init, data, k);
    }
  }

  lemma FillOrder(def: Dict, data: Dict)
    requires WellFormed(def)
    ensures Fill(def, data).0.keys == data.keys + Added(def.keys, data)
  {
    FillKeysOrder(def, def.keys, data);
  }

  // ---------------------------------------------------------------------------
  // What the merge leaves in place at the top level.

  lemma {:induction false} FillKeysTopLevel(def: Dict, ks: seq<string>, data: Dict, x: string)
    requires x in ks && x in def.vals && !def.vals[x].Arr? && IsSet(data, x)
    requires Distinct(ks)
    ensures var r := FillKeys(def, ks, data).0; x in r.vals && r.vals[x] == data.vals[x]
    decreases |ks|
  {
    var init := ks[..|ks| - 1];
    var k := ks[|ks| - 1];
    DistinctInit(ks);
    var d1 := FillKeys(def, init, data).0;
    if x == k {
      FillKeysOutside(def, init, data, x);
      match def.vals[x] {
        case Arr(_) =>
        case _ =>
      }
    } else {
      assert x in init;
      FillKeysTopLevel(def, init, data, x);
      FillKeyOthers(def, k, d1, x);
    }
  }

  /** fillDefaults never changes a key of the data that has no default, nor a set key whose
      default is a scalar. */
  lemma FillKeepsSetScalars(def: Dict, data: Dict, x: string)
    requires WellFormed(def)
    requires x in data.vals && (x !in def.vals || (!def.vals[x].Arr? && IsSet(data, x)))
    ensures x in Fill(def, data).0.vals && Fill(def, data).0.vals[x] == data.vals[x]
  {
    if x in def.vals {
      FillKeysTopLevel(def, def.keys, data, x);
    } else {
      FillKeysOutside(def, def.keys, data, x);
    }
  }

  /** The data holds an array at every proper prefix of `p` at which the defaults hold one. */
  ghost predicate ArraysAlong(def: Dict, data: Dict, p: seq<string>)
    decreases |p|
  {
    |p| > 1 && p[0] in def.vals && def.vals[p[0]].Arr? ==>
      p[0] in data.vals && data.vals[p[0]].Arr? && ArraysAlong(def.vals[p[0]].a, data.vals[p[0]].a, p[1..])
  }

  /** fillDefaults changes nothing at a path the defaults do not reach, provided the data
      already holds arrays wherever the defaults descend on the way. */
  lemma {:induction false} FillPathFrame(def: Dict, data: Dict, p: seq<string>)
    requires DeepWellFormed(def) && p != []
    requires At(Arr(def), p).None? && ArraysAlong(def, data, p)
    ensures At(Arr(Fill(def, data).0), p) == At(Arr(data), p)
    decreases |p|
  {
    var k, q := p[0], p[1..];
    var r := Fill(def, data).0;
    if k !in def.vals {
      FillKeysOutside(def, def.keys, data, k);
    } else {
      FillAtKey(def, data, k);
      match def.vals[k] {
        case Arr(sub) =>
          assert q != [];
          assert Slot(data, k) == data.vals[k].a;
          FillPathFrame(sub, data.vals[k].a, q);
        case v =>
          assert q != [];
      }
    }
  }

  /** What fillDefaults leaves at a key of the defaults: the merged array for a nested
      default, and for a scalar one the data's value when set, else the default. */
  lemma FillAtKey(def: Dict, data: Dict, k: string)
    requires WellFormed(def) && k in def.vals
    ensures k in Fill(def, data).0.vals
    ensures Fill(def, data).0.vals[k] ==
      (match def.vals[k]
       case Arr(sub) => Arr(Fill(sub, Slot(data, k)).0)
       case v => if IsSet(data, k) then data.vals[k] else v)
  {
    FillKeysSlot(def, def.keys, data, k);
  }

  /** Over distinct keys, key `k` of the pass is what its own turn makes of the data. */
  lemma {:induction false} FillKeysSlot(def: Dict, ks: seq<string>, data: Dict, k: string)
    requires Distinct(ks) && k in ks
    ensures var r, f := FillKeys(def, ks, data).0, FillKey(def, k, data).0;
      (k in r.vals <==> k in f.vals) && (k in f.vals ==> r.vals[k] == f.vals[k])
    decreases |ks|
  {
    var init := ks[..|ks| - 1];
    var last := ks[|ks| - 1];
    DistinctInit(ks);
    var d1 := FillKeys(def, init, data).0;
    if k == last {
      FillKeysOutside(def, init, data, k);
      FillKeyLocal(def, k, d1, data);
    } else {
      assert k in init;
      FillKeysSlot(def, init, data, k);
      FillKeyOthers(def, last, d1, k);
    }
  }

  /** A turn's result at its own key depends only on the data at that key. */
  lemma FillKeyLocal(def: Dict, k: string, d1: Dict, data: Dict)
    requires (k in d1.vals <==> k in data.vals) && (k in data.vals ==> d1.vals[k] == data.vals[k])
    ensures var r, f := FillKey(def, k, d1).0, FillKey(def, k, data).0;
      (k in r.vals <==> k in f.vals) && (k in f.vals ==> r.vals[k] == f.vals[k])
  {
    assert Slot(d1, k) == Slot(data, k);
  }

  // ---------------------------------------------------------------------------
  // What the merge puts at every leaf path of the defaults.

  /** The value fillDefaults leaves at a leaf path of the defaults: what the data set there,
      or else the default. */
  ghost function Expected(def: Dict, data: Dict, p: seq<string>): Option<Value> {
    if Lookup(Arr(data), p).Some? then Lookup(Arr(data), p) else At(Arr(def), p)
  }

  /** Descending one level: the isset walk through the data equals the walk through the slot
      the merge uses. */
  lemma LookupSlot(data: Dict, k: string, q: seq<string>)
    requires q != []
    ensures Lookup(Arr(data), [k] + q) == Lookup(Arr(Slot(data, k)), q)
  {
    assert ([k] + q)[1..] == q;
    assert ([k] + q)[0] == k;
    if k in data.vals && data.vals[k].Arr? {
    } else if IsSet(data, k) {
      assert !data.vals[k].Arr?;
    }
  }

  lemma FillKeyLeaf(def: Dict, k: string, d1: Dict, data: Dict, p: seq<string>)
    requires DeepWellFormed(def)
    requires p in LeafPaths(def) && p[0] == k
    requires (k in d1.vals <==> k in data.vals) && (k in data.vals ==> d1.vals[k] == data.vals[k])
    ensures At(Arr(FillKey(def, k, d1).0), p) == Expected(def, data, p)
    decreases def, 0
  {
    LeafPathsMember(def, p);
    var q := p[1..];
    assert p == [k] + q;
    var v := def.vals[k];
    var r := FillKey(def, k, d1).0;
    match v {
      case Arr(sub) =>
        LeafPathsMember(sub, q);
        assert Slot(d1, k) == Slot(data, k);
        var s := Fill(sub, Slot(data, k)).0;
        assert r.vals[k] == Arr(s);
        FillLeaf(sub, Slot(data, k), q);
        LookupSlot(data, k, q);
        assert At(Arr(r), p) == At(Arr(s), q);
        assert At(Arr(def), p) == At(Arr(sub), q);
      case _ =>
        assert q == [];
        assert At(Arr(def), p) == Some(v);
        assert Lookup(Arr(data), p) == if IsSet(data, k) then Some(data.vals[k]) else None;
    }
  }

  lemma {:induction false} FillKeysLeaf(def: Dict, ks: seq<string>, data: Dict, p: seq<string>)
    requires DeepWellFormed(def) && Distinct(ks)
    requires p in LeafPaths(def) && p[0] in ks
    ensures At(Arr(FillKeys(def, ks, data).0), p) == Expected(def, data, p)
    decreases def, |ks|
  {
    var init := ks[..|ks| - 1];
    var k := ks[|ks| - 1];
    DistinctInit(ks);
    var d1 := FillKeys(def, init, data).0;
    var r := FillKey(def, k, d1).0;
    LeafPathsMember(def, p);
    if p[0] == k {
      FillKeysOutside(def, init, data, k);
      FillKeyLeaf(def, k, d1, data, p);
    } else {
      assert p[0] in init;
      FillKeysLeaf(def, init, data, p);
      FillKeyOthers(def, k, d1, p[0]);
      assert At(Arr(r), p) == At(Arr(d1), p);
    }
  }

  /** Gap filling, at every leaf path of the defaults: afterwards the data holds there what it
      already set, and the default wherever it set nothing. */
  lemma FillLeaf(def: Dict, data: Dict, p: seq<string>)
    requires DeepWellFormed(def)
    requires p in LeafPaths(def)
    ensures At(Arr(Fill(def, data).0), p) == Expected(def, data, p)
    decreases def, |def.keys| + 1
  {
    LeafPathsMember(def, p);
    FillKeysLeaf(def, def.keys, data, p);
  }

  /** Corollary: after fillDefaults every non-null leaf of the defaults is set in the data
      (getNested finds it). */
  lemma FillSetsEveryLeaf(def: Dict, data: Dict, p: seq<string>)
    requires DeepWellFormed(def)
    requires p in LeafPaths(def) && At(Arr(def), p) != Some(Null)
    ensures Lookup(Arr(Fill(def, data).0), p).Some?
  {
    FillLeaf(def, data, p);
    LeafPathAt(def, p);
    if Lookup(Arr(data), p).None? {
      AtLookup(Arr(Fill(def, data).0), p);
    } else {
      LeafPathsMember(def, p);
      AtLookup(Arr(Fill(def, data).0), p);
    }
  }

  // ---------------------------------------------------------------------------
  // The count: exactly one per leaf gap.

  ghost function Prefixed(k: string, s: set<seq<string>>): set<seq<string>> {
    set q | q in s :: [k] + q
  }

  lemma {:induction false} PrefixedSize(k: string, s: set<seq<string>>)
    ensures |Prefixed(k, s)| == |s|
    decreases |s|
  {
    if s != {} {
      var x :| x in s;
      var rest := s - {x};
      PrefixedSize(k, rest);
      assert Prefixed(k, s) == Prefixed(k, rest) + {[k] + x};
      forall y | y in rest ensures [k] + y != [k] + x {
        assert ([k] + y)[1..] == y && ([k] + x)[1..] == x;
      }
    }
  }

  /** The gaps under key `k`. */
  ghost function MissingAt(def: Dict, data: Dict, k: string): set<seq<string>> {
    set p | p in Missing(def, data) && p[0] == k
  }

  /** The gaps whose first key is among `ks`. */
  ghost function MissingAmong(def: Dict, data: Dict, ks: seq<string>): set<seq<string>> {
    set p | p in Missing(def, data) && p[0] in ks
  }

  lemma MissingNonEmpty(def: Dict, data: Dict)
    ensures forall p :: p in Missing(def, data) ==> p != []
  {
    forall p | p in Missing(def, data) ensures p != [] {
      LeafPathsMember(def, p);
    }
  }

  /** The gaps under the keys `ks` split into those under all but the last key and those
      under the last one. */
  lemma MissingAmongSnoc(def: Dict, data: Dict, ks: seq<string>)
    requires ks != [] && ks[|ks| - 1] !in ks[..|ks| - 1]
    ensures var init, k := ks[..|ks| - 1], ks[|ks| - 1];
      MissingAmong(def, data, ks) == MissingAmong(def, data, init) + MissingAt(def, data, k) &&
      MissingAmong(def, data, init) !! MissingAt(def, data, k)
  {
    MissingNonEmpty(def, data);
    assert forall x :: x in ks <==> x in ks[..|ks| - 1] || x == ks[|ks| - 1] by {
      assert ks == ks[..|ks| - 1] + [ks[|ks| - 1]];
    }
  }

  lemma FillKeyCount(def: Dict, k: string, d1: Dict, data: Dict)
    requires DeepWellFormed(def) && k in def.vals
    requires (k in d1.vals <==> k in data.vals) && (k in data.vals ==> d1.vals[k] == data.vals[k])
    ensures FillKey(def, k, d1).1 == |MissingAt(def, data, k)|
    decreases def, 1
  {
    if def.vals[k].Arr? {
      assert Slot(d1, k) == Slot(data, k);
      FillKeyCountArray(def, k, data);
    } else {
      FillKeyCountScalar(def, k, data);
    }
  }

  lemma FillKeyCountArray(def: Dict, k: string, data: Dict)
    requires DeepWellFormed(def) && k in def.vals && def.vals[k].Arr?
    ensures Fill(def.vals[k].a, Slot(data, k)).1 == |MissingAt(def, data, k)|
    decreases def, 0
  {
    var sub := def.vals[k].a;
    var base := Slot(data, k);
    FillCount(sub, base);
    PrefixedSize(k, Missing(sub, base));
    MissingAtArray(def, k, data);
  }

  lemma MissingAtArray(def: Dict, k: string, data: Dict)
    requires k in def.vals && def.vals[k].Arr?
    ensures MissingAt(def, data, k) == Prefixed(k, Missing(def.vals[k].a, Slot(data, k)))
  {
    var sub := def.vals[k].a;
    var base := Slot(data, k);
    MissingNonEmpty(def, data);
    forall p | p in MissingAt(def, data, k) ensures p in Prefixed(k, Missing(sub, base)) {
      LeafPathsMember(def, p);
      var q := p[1..];
      assert p == [k] + q;
      LeafPathsMember(sub, q);
      LookupSlot(data, k, q);
    }
    forall p | p in Prefixed(k, Missing(sub, base)) ensures p in MissingAt(def, data, k) {
      var q :| q in Missing(sub, base) && p == [k] + q;
      LeafPathsMember(sub, q);
      LeafPathsIntro(def, k, q);
      LookupSlot(data, k, q);
    }
  }

  lemma LookupOne(data: Dict, k: string)
    ensures Lookup(Arr(data), [k]) == if IsSet(data, k) then Some(data.vals[k]) else None
  {
    assert [k][1..] == [];
  }

  lemma FillKeyCountScalar(def: Dict, k: string, data: Dict)
    requires k in def.vals && !def.vals[k].Arr?
    ensures MissingAt(def, data, k) == if IsSet(data, k) then {} else {[k]}
  {
    var v := def.vals[k];
    assert PathsBelow(v) == {[]};
    forall p | p in MissingAt(def, data, k) ensures p == [k] && !IsSet(data, k) {
      LeafPathsMember(def, p);
      assert p[1..] == [];
      assert p == [k];
      LookupOne(data, k);
    }
    if !IsSet(data, k) {
      LeafPathsIntro(def, k, []);
      assert [k] + [] == [k];
      assert Lookup(Arr(data), [k]).None?;
    }
  }

  lemma {:induction false} FillKeysCount(def: Dict, ks: seq<string>, data: Dict)
    requires DeepWellFormed(def) && Distinct(ks) && forall k :: k in ks ==> k in def.vals
    ensures FillKeys(def, ks, data).1 == |MissingAmong(def, data, ks)|
    decreases def, |ks| + 1
  {
    if ks == [] {
      assert MissingAmong(def, data, ks) == {};
    } else {
      var init := ks[..|ks| - 1];
      var k := ks[|ks| - 1];
      DistinctInit(ks);
      var d1 := FillKeys(def, init, data).0;
      FillKeysCount(def, init, data);
      FillKeysOutside(def, init, data, k);
      FillKeyCount(def, k, d1, data);
      MissingAmongSnoc(def, data, ks);
    }
  }

  /** fillDefaults returns exactly the number of leaf gaps of the data: the scalar defaults it
      inserted. The arrays it creates on the way count for nothing. */
  lemma FillCount(def: Dict, data: Dict)
    requires DeepWellFormed(def)
    ensures Fill(def, data).1 == |Missing(def, data)|
    decreases def, |def.keys| + 2
  {
    FillKeysCount(def, def.keys, data);
    MissingNonEmpty(def, data);
    assert MissingAmong(def, data, def.keys) == Missing(def, data) by {
      forall p | p in Missing(def, data) ensures p[0] in def.keys {
        LeafPathsMember(def, p);
      }
    }
  }

  // ---------------------------------------------------------------------------
  // Idempotence

  /** A second fillDefaults with the same null-free defaults finds nothing to fill. */
  lemma FillIdempotent(def: Dict, data: Dict)
    requires DeepWellFormed(def) && NoNullLeaf(def)
    ensures Fill(def, Fill(def, data).0).1 == 0
  {
    var r := Fill(def, data).0;
    FillCount(def, r);
    assert Missing(def, r) == {} by {
      forall p | p in LeafPaths(def) ensures Lookup(Arr(r), p).Some? {
        FillSetsEveryLeaf(def, data, p);
      }
    }
  }

  /** With a null default, isset() never sees the inserted null: a second fillDefaults counts
      that leaf again (so load() rewrites the file on every load). */
  lemma FillNullLeafRecounted(def: Dict, data: Dict, p: seq<string>)
    requires DeepWellFormed(def)
    requires p in LeafPaths(def) && At(Arr(def), p) == Some(Null) && Lookup(Arr(data), p).None?
    ensures Fill(def, data).1 >= 1 && Fill(def, Fill(def, data).0).1 >= 1
  {
    var r := Fill(def, data).0;
    FillCount(def, data);
    assert p in Missing(def, data);
    FillLeaf(def, data, p);
    assert At(Arr(r), p) == Some(Null);
    if Lookup(Arr(r), p).Some? {
      LookupAt(Arr(r), p);
      LeafPathsMember(def, p);
    }
    FillCount(def, r);
    assert p in Missing(def, r);
  }
}
