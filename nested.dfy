/** The dotted-key addressing of setNested and getNested (Util/Config.php): a
    key is exploded on '.', and each segment selects a key one array deeper. */
module NestedKeys {
  import opened PhpStrings
  import opened PhpValues

  /** explode(".", $key). */
  function Segments(key: string): (segs: seq<string>)
    ensures |segs| >= 1
  {
    Split(key, '.')
  }

  /** A set value that setNested cannot descend into: PHP raises an Error when an int, a
      string or `true` is written to as an array. */
  predicate Blocks(v: Value) {
    v.Int? || v.Str? || v == Bool(true)
  }

  /** The array setNested continues in after a segment that is not the last: the slot's own
      array, or a fresh `[]` when the slot is unset or `false` (PHP turns both into arrays);
      None when the slot blocks. */
  function Descend(d: Dict, k: string): Option<Dict> {
    if !IsSet(d, k) then Some(Empty)
    else
      match d.vals[k]
      case Arr(c) => Some(c)
      case v => if Blocks(v) then None else Some(Empty)
  }

  /** The array that setNested($key, $v) leaves, for `segs` == explode(".", $key); None when
      PHP raises an Error on the way (nothing has been changed by then). */
  function SetPath(d: Dict, segs: seq<string>, v: Value): Option<Dict>
    requires |segs| >= 1
    decreases |segs|
  {
    if |segs| == 1 then Some(Put(d, segs[0], v))
    else
      match Descend(d, segs[0])
      case None => None
      case Some(c) =>
        match SetPath(c, segs[1..], v)
        case None => None
        case Some(c2) => Some(Put(d, segs[0], Arr(c2)))
  }

  /** setNested keeps the array well formed. */
  lemma SetPathWellFormed(d: Dict, segs: seq<string>, v: Value)
    requires |segs| >= 1 && WellFormed(d) && SetPath(d, segs, v).Some?
    ensures WellFormed(SetPath(d, segs, v).value)
  {
    if |segs| == 1 {
      PutWellFormed(d, segs[0], v);
    } else {
      var c := Descend(d, segs[0]).value;
      PutWellFormed(d, segs[0], Arr(SetPath(c, segs[1..], v).value));
    }
  }

  /** After a successful setNested the value sits at the key's path and every shorter prefix
      of the path holds an array. */
  lemma {:induction false} SetPathPlaces(d: Dict, segs: seq<string>, v: Value)
    requires |segs| >= 1 && SetPath(d, segs, v).Some?
    ensures At(Arr(SetPath(d, segs, v).value), segs) == Some(v)
    ensures forall j :: 1 <= j < |segs| ==>
      At(Arr(SetPath(d, segs, v).value), segs[..j]).Some? && At(Arr(SetPath(d, segs, v).value), segs[..j]).value.Arr?
    decreases |segs|
  {
    var r := SetPath(d, segs, v).value;
    if |segs| == 1 {
      assert segs[1..] == [];
    } else {
      var c := Descend(d, segs[0]).value;
      var c2 := SetPath(c, segs[1..], v).value;
      SetPathPlaces(c, segs[1..], v);
      assert r.vals[segs[0]] == Arr(c2);
      assert At(Arr(r), segs) == At(Arr(c2), segs[1..]);
      forall j | 1 <= j < |segs|
        ensures At(Arr(r), segs[..j]).Some? && At(Arr(r), segs[..j]).value.Arr?
      {
        assert segs[..j][0] == segs[0];
        if j == 1 {
          assert segs[..1][1..] == [];
        } else {
          assert segs[..j][1..] == segs[1..][..j - 1];
        }
      }
    }
  }

  /** setNested succeeds on an empty array: a path of fresh arrays is created. */
  lemma {:induction false} SetPathEmpty(segs: seq<string>, v: Value)
    requires |segs| >= 1
    ensures SetPath(Empty, segs, v).Some?
    decreases |segs|
  {
    if |segs| > 1 {
      SetPathEmpty(segs[1..], v);
    }
  }

  /** setNested fails exactly when a proper prefix of the key reaches, by the isset walk, a
      value that blocks. */
  lemma {:induction false} SetPathFails(d: Dict, segs: seq<string>, v: Value)
    requires |segs| >= 1
    ensures SetPath(d, segs, v).None? <==>
      exists j :: 1 <= j < |segs| && Lookup(Arr(d), segs[..j]).Some? && Blocks(Lookup(Arr(d), segs[..j]).value)
    decreases |segs|
  {
    if |segs| > 1 {
      var k := segs[0];
      var rest := segs[1..];
      assert segs[..1][1..] == [];
      forall j | 2 <= j < |segs| ensures Lookup(Arr(d), segs[..j]) ==
        if IsSet(d, k) then Lookup(d.vals[k], rest[..j - 1]) else None
      {
        assert segs[..j][0] == k && segs[..j][1..] == rest[..j - 1];
      }
      match Descend(d, k) {
        case None =>
          assert Lookup(Arr(d), segs[..1]) == Some(d.vals[k]);
        case Some(c) =>
          SetPathFails(c, rest, v);
          if IsSet(d, k) && d.vals[k].Arr? {
            assert c == d.vals[k].a;
            assert !Blocks(d.vals[k]);
            forall j | 2 <= j < |segs| ensures Lookup(Arr(d), segs[..j]) == Lookup(Arr(c), rest[..j - 1]) {
            }
            if SetPath(d, segs, v).None? {
              var j' :| 1 <= j' < |rest| && Lookup(Arr(c), rest[..j']).Some? && Blocks(Lookup(Arr(c), rest[..j']).value);
              assert Lookup(Arr(d), segs[..j' + 1]) == Lookup(Arr(c), rest[..j']);
            } else {
              forall j | 1 <= j < |segs| ensures !(Lookup(Arr(d), segs[..j]).Some? && Blocks(Lookup(Arr(d), segs[..j]).value)) {
                if j > 1 {
                  assert Lookup(Arr(d), segs[..j]) == Lookup(Arr(c), rest[..j - 1]);
                }
              }
            }
          } else {
            assert c == Empty;
            SetPathEmpty(rest, v);
            forall j | 1 <= j < |segs| ensures !(Lookup(Arr(d), segs[..j]).Some? && Blocks(Lookup(Arr(d), segs[..j]).value)) {
              if j > 1 && IsSet(d, k) {
                LookupScalar(d.vals[k], rest[..j - 1]);
              }
            }
          }
      }
    }
  }

  lemma LookupScalar(v: Value, p: seq<string>)
    requires !v.Arr? && p != []
    ensures Lookup(v, p).None?
  {
  }

  /** setNested changes only the top-level slot of the key's first segment; a new key goes
      last. */
  lemma SetPathTopLevel(d: Dict, segs: seq<string>, v: Value)
    requires |segs| >= 1 && SetPath(d, segs, v).Some?
    ensures var r := SetPath(d, segs, v).value;
      r.keys == (if segs[0] in d.vals then d.keys else d.keys + [segs[0]]) &&
      r.vals.Keys == d.vals.Keys + {segs[0]} &&
      forall k :: k in d.vals && k != segs[0] ==> r.vals[k] == d.vals[k]
  {
  }

  /** Paths that part from the key's path before either ends. */
  ghost predicate Diverge(p: seq<string>, q: seq<string>) {
    p != [] && q != [] && (p[0] != q[0] || Diverge(p[1..], q[1..]))
  }

  /** setNested leaves every path that parts from the key's path as it was. */
  lemma {:induction false} SetPathFrame(d: Dict, segs: seq<string>, v: Value, p: seq<string>)
    requires |segs| >= 1 && SetPath(d, segs, v).Some? && Diverge(p, segs)
    ensures At(Arr(SetPath(d, segs, v).value), p) == At(Arr(d), p)
    decreases |segs|
  {
    var r := SetPath(d, segs, v).value;
    if p[0] != segs[0] {
    } else {
      assert |segs| > 1 && |p| > 1;
      var c := Descend(d, segs[0]).value;
      SetPathFrame(c, segs[1..], v, p[1..]);
      if IsSet(d, segs[0]) && d.vals[segs[0]].Arr? {
      } else {
        assert At(Arr(c), p[1..]).None?;
        if segs[0] in d.vals {
          assert !d.vals[segs[0]].Arr?;
        }
      }
    }
  }

  /** The isset walk finds nothing where a null was stored. */
  lemma {:induction false} LookupNullLeaf(v: Value, p: seq<string>)
    requires p != [] && At(v, p) == Some(Null)
    ensures Lookup(v, p).None?
    decreases |p|
  {
    if |p| > 1 {
      LookupNullLeaf(v.a.vals[p[0]], p[1..]);
    }
  }

  /** A key without '.' followed by '.' explodes into that key and the rest's segments. */
  lemma SegmentsDot(k: string, rest: string)
    requires '.' !in k
    ensures Segments(k + "." + rest) == [k] + Segments(rest)
  {
    var s := k + "." + rest;
    assert s[|k|] == '.';
    assert s[..|k|] == k;
    assert IndexOf(s, '.') == |k|;
    assert s[|k| + 1..] == rest;
  }

  /** One segment of setNested's walk down: it fails below `segs[j]` exactly when that slot
      blocks or the walk fails further down. */
  lemma DescendStep(d: Dict, segs: seq<string>, j: nat, v: Value)
    requires j < |segs| - 1
    ensures SetPath(d, segs[j..], v).None? <==>
      Descend(d, segs[j]).None? || SetPath(Descend(d, segs[j]).value, segs[j + 1..], v).None?
  {
    assert segs[j..][0] == segs[j] && segs[j..][1..] == segs[j + 1..];
  }

  /** One segment of the rebuild, from the innermost array out. */
  lemma RebuildStep(d: Dict, segs: seq<string>, t: nat, v: Value, c: Dict, inner: Dict)
    requires t < |segs| - 1
    requires Descend(d, segs[t]) == Some(c) && SetPath(c, segs[t + 1..], v) == Some(inner)
    ensures SetPath(d, segs[t..], v) == Some(Put(d, segs[t], Arr(inner)))
  {
    assert segs[t..][0] == segs[t] && segs[t..][1..] == segs[t + 1..];
  }

  /** The last segment receives the value. */
  lemma LastStep(d: Dict, segs: seq<string>, v: Value)
    requires |segs| >= 1
    ensures SetPath(d, segs[|segs| - 1..], v) == Some(Put(d, segs[|segs| - 1], v))
  {
    assert segs[|segs| - 1..] == [segs[|segs| - 1]];
  }
}
