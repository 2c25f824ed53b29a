/** The properties format (Config::PROPERTIES and Config::CNF): `key=value` lines.
    Reading is parseProperties (Util/Config.php), writing is writeProperties. */
module PropertiesCodec {
  import opened PhpStrings
  import opened PhpValues

  // ---------------------------------------------------------------------------
  // Reading: preg_match_all('/([a-zA-Z0-9\-_\.]*)=([^\r\n]*)/u', ...)

  /** A character of the key class [a-zA-Z0-9\-_\.]. */
  predicate IsKeyChar(c: char) {
    ('a' <= c <= 'z') || ('A' <= c <= 'Z') || ('0' <= c <= '9') || c == '-' || c == '_' || c == '.'
  }

  /** A key the properties format can carry: key-class characters only. */
  predicate KeyText(k: string) {
    forall i :: 0 <= i < |k| ==> IsKeyChar(k[i])
  }

  /** A value text that stays on one line. */
  predicate LineFree(t: string) {
    '\r' !in t && '\n' !in t
  }

  /** Length of the longest prefix made of key characters (the greedy key group). */
  function KeyRun(s: string): (n: nat)
    ensures n <= |s|
  {
    if s != [] && IsKeyChar(s[0]) then 1 + KeyRun(s[1..]) else 0
  }

  /** The key run is made of key characters and stops before a character outside the class. */
  lemma {:induction false} KeyRunSpec(s: string)
    ensures KeyText(s[..KeyRun(s)])
    ensures KeyRun(s) < |s| ==> !IsKeyChar(s[KeyRun(s)])
  {
    if s != [] && IsKeyChar(s[0]) {
      KeyRunSpec(s[1..]);
      assert s[..KeyRun(s)] == [s[0]] + s[1..][..KeyRun(s[1..])];
    }
  }

  /** Length of the longest prefix without CR or LF (the greedy value group). */
  function LineEnd(s: string): (n: nat)
    ensures n <= |s|
  {
    if s != [] && s[0] != '\r' && s[0] != '\n' then 1 + LineEnd(s[1..]) else 0
  }

  /** The value run holds no line break and stops before CR or LF. */
  lemma {:induction false} LineEndSpec(s: string)
    ensures LineFree(s[..LineEnd(s)])
    ensures LineEnd(s) < |s| ==> s[LineEnd(s)] == '\r' || s[LineEnd(s)] == '\n'
  {
    if s != [] && s[0] != '\r' && s[0] != '\n' {
      LineEndSpec(s[1..]);
      assert s[..LineEnd(s)] == [s[0]] + s[1..][..LineEnd(s[1..])];
    }
  }

  /** The (key, raw value) pairs preg_match_all finds: leftmost matches, each search
      resuming where the previous match ended. A match starts where a run of key characters
      (possibly empty) is followed by '='; the value runs to the end of the line. */
  function Matches(s: string): seq<(string, string)>
    decreases |s|
  {
    if s == [] then []
    else
      match MatchAt(s)
      case Some((n, e)) => [(s[..n], s[n + 1..e])] + Matches(s[e..])
      case None => Matches(s[1..])
  }

  /** The match that starts at the very beginning of `s`, if any: the position of its '='
      (the key is what precedes it) and the position where its raw value ends and the
      search resumes. */
  function MatchAt(s: string): (r: Option<(nat, nat)>)
    ensures r.Some? ==> r.value.0 < r.value.1 <= |s|
  {
    var n := KeyRun(s);
    if n < |s| && s[n] == '=' then Some((n, n + 1 + LineEnd(s[n + 1..]))) else None
  }

  const TrueWords: set<string> := {"on", "true", "yes"}
  const FalseWords: set<string> := {"off", "false", "no"}

  /** The value parseProperties stores for a raw match: trimmed, and turned into a boolean
      when its lower-case form is one of the six words. */
  function Coerce(raw: string): Value {
    var t := Trim(raw);
    var l := Lower(t);
    if l in TrueWords then Bool(true)
    else if l in FalseWords then Bool(false)
    else Str(t)
  }

  /** The coercion in words: true for on/true/yes, false for off/false/no, in any letter case
      and with surrounding blanks; otherwise the trimmed text as a string. */
  lemma CoerceSpec(raw: string)
    ensures var v := Coerce(raw);
      (v.Bool? || v.Str?) &&
      (v == Bool(true) <==> Lower(Trim(raw)) in TrueWords) &&
      (v == Bool(false) <==> Lower(Trim(raw)) in FalseWords) &&
      (v.Str? ==> v.s == Trim(raw))
  {
    var l := Lower(Trim(raw));
    if l in TrueWords {
      WordsApart(l);
    }
  }

  /** Coerce unfolded on its trimmed text and that text's lower-case form. */
  lemma CoerceOf(raw: string, t: string, l: string)
    requires t == Trim(raw) && l == Lower(t)
    ensures Coerce(raw) == if l in TrueWords then Bool(true) else if l in FalseWords then Bool(false) else Str(t)
  {
  }

  /** No word is both a true word and a false word. */
  lemma WordsApart(w: string)
    requires w in TrueWords
    ensures w !in FalseWords
  {
    if w == "on" {
      assert |w| == 2 && w[0] == 'o';
    } else if w == "true" {
      assert |w| == 4;
    } else {
      assert |w| == 3 && w[0] == 'y';
    }
  }

  /** The assignments parseProperties makes, one per match, in order. */
  function Assignments(ms: seq<(string, string)>): (asg: seq<(string, Value)>)
    ensures |asg| == |ms|
    ensures forall i :: 0 <= i < |ms| ==> asg[i] == (ms[i].0, Coerce(ms[i].1))
  {
    seq(|ms|, i requires 0 <= i < |ms| => (ms[i].0, Coerce(ms[i].1)))
  }

  /** $this->config[$k] = $v for each assignment in turn. */
  function PutAll(d: Dict, asg: seq<(string, Value)>): Dict
    decreases |asg|
  {
    if asg == [] then d else PutAll(Put(d, asg[0].0, asg[0].1), asg[1..])
  }

  /** One turn of the loop over `asg[i..]`. */
  lemma PutAllAt(d: Dict, asg: seq<(string, Value)>, i: nat)
    requires i < |asg|
    ensures PutAll(d, asg[i..]) == PutAll(Put(d, asg[i].0, asg[i].1), asg[i + 1..])
  {
    assert asg[i..][0] == asg[i] && asg[i..][1..] == asg[i + 1..];
  }

  /** The array parseProperties($content) leaves when it starts from `d`. */
  function ReadInto(d: Dict, content: string): Dict {
    PutAll(d, Assignments(Matches(content)))
  }

  /** parseProperties keeps the array well formed. */
  lemma ReadIntoWellFormed(d: Dict, content: string)
    requires WellFormed(d)
    ensures WellFormed(ReadInto(d, content))
  {
    PutAllWellFormed(d, Assignments(Matches(content)));
  }

  lemma {:induction false} PutAllWellFormed(d: Dict, asg: seq<(string, Value)>)
    requires WellFormed(d)
    ensures WellFormed(PutAll(d, asg))
    decreases |asg|
  {
    if asg != [] {
      PutWellFormed(d, asg[0].0, asg[0].1);
      PutAllWellFormed(Put(d, asg[0].0, asg[0].1), asg[1..]);
    }
  }

  // ---------------------------------------------------------------------------
  // Writing: writeProperties()

  /** The two header lines; `stamp` is the date() text, which the model takes as given. */
  function Header(stamp: string): string {
    "#Properties Config file\r\n#" + stamp + "\r\n"
  }

  /** How a value is written: booleans as on/off, arrays as their elements' string forms
      joined with ';', anything else by PHP's string conversion. */
  function Text(v: Value): string {
    match v
    case Bool(b) => if b then "on" else "off"
    case Arr(a) => Join(seq(|a.keys|, i requires 0 <= i < |a.keys| => ToPhpString(ValuesInOrder(a)[i])), ";")
    case _ => ToPhpString(v)
  }

  /** The value stored at `k`; well-formed arrays hold every listed key. */
  function Entry(vals: map<string, Value>, k: string): Value {
    if k in vals then vals[k] else Null
  }

  function Line(k: string, v: Value): string {
    k + "=" + Text(v) + "\r\n"
  }

  /** One line per listed key, in order. */
  function Body(ks: seq<string>, vals: map<string, Value>): string
    decreases |ks|
  {
    if ks == [] then "" else Line(ks[0], Entry(vals, ks[0])) + Body(ks[1..], vals)
  }

  /** The text writeProperties() returns. */
  function Write(d: Dict, stamp: string): string {
    Header(stamp) + Body(d.keys, d.vals)
  }

  /** The pairs a written body yields when read. */
  function Pairs(ks: seq<string>, vals: map<string, Value>): (ps: seq<(string, string)>)
    ensures |ps| == |ks| && forall i :: 0 <= i < |ks| ==> ps[i] == (ks[i], Text(Entry(vals, ks[i])))
  {
    seq(|ks|, i requires 0 <= i < |ks| => (ks[i], Text(Entry(vals, ks[i]))))
  }

  // ---------------------------------------------------------------------------
  // Properties

  /** Writing one line after another. */
  lemma {:induction false} BodySnoc(ks: seq<string>, vals: map<string, Value>, k: string)
    ensures Body(ks + [k], vals) == Body(ks, vals) + Line(k, Entry(vals, k))
    decreases |ks|
  {
    if ks == [] {
      assert [k][1..] == [];
    } else {
      assert (ks + [k])[1..] == ks[1..] + [k];
      BodySnoc(ks[1..], vals, k);
    }
  }

  /** The key run stops at the first character outside the key class. */
  lemma {:induction false} KeyRunStops(s: string, j: nat)
    requires j < |s| && !IsKeyChar(s[j])
    ensures KeyRun(s) <= j
  {
    if j > 0 && IsKeyChar(s[0]) {
      KeyRunStops(s[1..], j - 1);
    }
  }

  /** The key run covers every leading key character. */
  lemma {:induction false} KeyRunCovers(s: string, j: nat)
    requires j <= |s| && KeyText(s[..j])
    ensures KeyRun(s) >= j
  {
    if j > 0 {
      assert IsKeyChar(s[..j][0]);
      assert s[1..][..j - 1] == s[..j][1..];
      KeyRunCovers(s[1..], j - 1);
    }
  }

  lemma {:induction false} LineEndStops(s: string, j: nat)
    requires j < |s| && (s[j] == '\r' || s[j] == '\n')
    ensures LineEnd(s) <= j
  {
    if j > 0 && s[0] != '\r' && s[0] != '\n' {
      LineEndStops(s[1..], j - 1);
    }
  }

  lemma {:induction false} LineEndCovers(s: string, j: nat)
    requires j <= |s| && LineFree(s[..j])
    ensures LineEnd(s) >= j
  {
    if j > 0 {
      assert s[..j][0] == s[0];
      assert s[1..][..j - 1] == s[..j][1..];
      LineEndCovers(s[1..], j - 1);
    }
  }

  /** Text without '=' that ends outside the key class yields no match, however it goes on. */
  lemma {:induction false} MatchesSkip(a: string, b: string)
    requires '=' !in a
    requires a == [] || !IsKeyChar(a[|a| - 1])
    ensures Matches(a + b) == Matches(b)
    decreases |a|
  {
    if a != [] {
      var s := a + b;
      assert s[|a| - 1] == a[|a| - 1];
      KeyRunStops(s, |a| - 1);
      assert s[KeyRun(s)] == a[KeyRun(s)];
      assert a[KeyRun(s)] in a;
      MatchesNone(s);
      assert s[1..] == a[1..] + b;
      assert forall c :: c in a[1..] ==> c in a;
      assert a[1..] == [] || a[1..][|a[1..]| - 1] == a[|a| - 1];
      MatchesSkip(a[1..], b);
    } else {
      assert a + b == b;
    }
  }

  /** Unfolding a start of the text where no match begins. */
  lemma MatchesNone(s: string)
    requires s != [] && !(KeyRun(s) < |s| && s[KeyRun(s)] == '=')
    ensures Matches(s) == Matches(s[1..])
  {
  }

  /** Unfolding one match found at the start of the text. */
  lemma MatchesFirst(s: string, n: nat, e: nat, k: string, v: string)
    requires s != [] && MatchAt(s) == Some((n, e))
    requires s[..n] == k && s[n + 1..e] == v
    ensures Matches(s) == [(k, v)] + Matches(s[e..])
  {
  }

  /** A match starts where the key run is followed by '='; its value runs to the line end. */
  lemma MatchAtFirst(s: string, n: nat, m: nat)
    requires n < |s| && KeyRun(s) == n && s[n] == '='
    requires LineEnd(s[n + 1..]) == m
    ensures MatchAt(s) == Some((n, n + 1 + m))
  {
  }

  /** On a written line the key run ends at the '='. */
  lemma KeyRunLine(k: string, t: string, rest: string)
    requires KeyText(k)
    ensures KeyRun(k + "=" + t + "\r\n" + rest) == |k|
  {
    var s := k + "=" + t + "\r\n" + rest;
    assert s[|k|] == '=';
    assert s[..|k|] == k;
    KeyRunStops(s, |k|);
    KeyRunCovers(s, |k|);
  }

  /** On a written line the value runs to the CR. */
  lemma LineEndLine(t: string, rest: string)
    requires LineFree(t)
    ensures LineEnd(t + "\r\n" + rest) == |t|
  {
    var v := t + "\r\n" + rest;
    assert v[|t|] == '\r';
    assert v[..|t|] == t;
    LineEndStops(v, |t|);
    LineEndCovers(v, |t|);
  }

  /** A written line starts with one match: its key and its text. */
  lemma MatchesLineHead(k: string, t: string, rest: string)
    requires KeyText(k) && LineFree(t)
    ensures var s := k + "=" + t + "\r\n" + rest;
      Matches(s) == [(k, t)] + Matches(s[|k| + 1 + |t|..])
  {
    var s := k + "=" + t + "\r\n" + rest;
    var n := |k|;
    KeyRunLine(k, t, rest);
    LineParts(k, t, rest);
    LineEndLine(t, rest);
    MatchAtFirst(s, n, |t|);
    MatchesFirst(s, n, n + 1 + |t|, k, t);
  }

  /** The pieces of a written line: the key, the '=', the value and what follows it. */
  lemma LineParts(k: string, t: string, rest: string)
    ensures var s := k + "=" + t + "\r\n" + rest;
      |s| > |k| && s[..|k|] == k && s[|k|] == '=' && s[|k| + 1..] == t + "\r\n" + rest &&
      s[|k| + 1..|k| + 1 + |t|] == t
  {
  }

  /** A written line is read back as exactly one match: its key and its text. */
  lemma MatchesLine(k: string, t: string, rest: string)
    requires KeyText(k) && LineFree(t)
    ensures Matches(k + "=" + t + "\r\n" + rest) == [(k, t)] + Matches(rest)
  {
    MatchesLineHead(k, t, rest);
    LineTail(k, t, rest);
    MatchesSkip("\r\n", rest);
  }

  /** What follows the value on a written line is the line break and the rest. */
  lemma LineTail(k: string, t: string, rest: string)
    ensures (k + "=" + t + "\r\n" + rest)[|k| + 1 + |t|..] == "\r\n" + rest
  {
  }

  /** A written body is read back as its keys paired with their texts, in order. */
  lemma {:induction false} MatchesBody(ks: seq<string>, vals: map<string, Value>)
    requires forall i :: 0 <= i < |ks| ==> KeyText(ks[i]) && LineFree(Text(Entry(vals, ks[i])))
    ensures Matches(Body(ks, vals)) == Pairs(ks, vals)
    decreases |ks|
  {
    if ks != [] {
      BodyTail(ks, vals);
      MatchesBody(ks[1..], vals);
      MatchesLine(ks[0], Text(Entry(vals, ks[0])), Body(ks[1..], vals));
      PairsCons(ks, vals);
    }
  }

  /** The rest of the keys meet the condition of MatchesBody, and the body is the first line
      followed by the rest. */
  lemma BodyTail(ks: seq<string>, vals: map<string, Value>)
    requires ks != []
    requires forall i :: 0 <= i < |ks| ==> KeyText(ks[i]) && LineFree(Text(Entry(vals, ks[i])))
    ensures forall i :: 0 <= i < |ks[1..]| ==> KeyText(ks[1..][i]) && LineFree(Text(Entry(vals, ks[1..][i])))
    ensures KeyText(ks[0]) && LineFree(Text(Entry(vals, ks[0])))
    ensures Body(ks, vals) == ks[0] + "=" + Text(Entry(vals, ks[0])) + "\r\n" + Body(ks[1..], vals)
  {
    forall i | 0 <= i < |ks[1..]| ensures KeyText(ks[1..][i]) && LineFree(Text(Entry(vals, ks[1..][i]))) {
      assert ks[1..][i] == ks[i + 1];
    }
  }

  lemma PairsCons(ks: seq<string>, vals: map<string, Value>)
    requires ks != []
    ensures Pairs(ks, vals) == [(ks[0], Text(Entry(vals, ks[0])))] + Pairs(ks[1..], vals)
  {
    var a := Pairs(ks, vals);
    var b := [(ks[0], Text(Entry(vals, ks[0])))] + Pairs(ks[1..], vals);
    forall i | 0 <= i < |a| ensures a[i] == b[i] {
      if i > 0 {
        assert ks[1..][i - 1] == ks[i];
      }
    }
  }

  /** The header never produces a match when the date text holds no '='. */
  lemma MatchesHeader(stamp: string, rest: string)
    requires '=' !in stamp
    ensures Matches(Header(stamp) + rest) == Matches(rest)
  {
    var h := Header(stamp);
    assert h == "#Properties Config file\r\n#" + stamp + "\r\n";
    assert '=' !in h;
    MatchesSkip(h, rest);
  }

  /** A key no assignment names keeps its earlier value (or stays absent). */
  lemma {:induction false} PutAllUntouched(d: Dict, asg: seq<(string, Value)>, k: string)
    ensures var r := PutAll(d, asg);
      (forall j :: 0 <= j < |asg| ==> asg[j].0 != k) ==>
        (k in r.vals <==> k in d.vals) && (k in d.vals ==> r.vals[k] == d.vals[k])
    decreases |asg|
  {
    if asg != [] {
      var d' := Put(d, asg[0].0, asg[0].1);
      var tl := asg[1..];
      PutAllUntouched(d', tl, k);
      assert forall j :: 0 <= j < |tl| ==> tl[j] == asg[j + 1];
    }
  }

  /** The value of a key is the one its last assignment gives. */
  lemma {:induction false} PutAllLast(d: Dict, asg: seq<(string, Value)>, k: string, i: nat)
    requires i < |asg| && asg[i].0 == k
    requires forall j :: i < j < |asg| ==> asg[j].0 != k
    ensures var r := PutAll(d, asg); k in r.vals && r.vals[k] == asg[i].1
    decreases |asg|
  {
    var d' := Put(d, asg[0].0, asg[0].1);
    var tl := asg[1..];
    assert forall j :: 0 <= j < |tl| ==> tl[j] == asg[j + 1];
    if i > 0 {
      PutAllLast(d', tl, k, i - 1);
    } else {
      PutAllUntouched(d', tl, k);
    }
  }

  /** Reading: a key's value is the coerced text of its last match, so a repeated key keeps
      the last value read. */
  lemma ReadIntoLastWins(d: Dict, content: string, k: string, i: nat)
    requires i < |Matches(content)| && Matches(content)[i].0 == k
    requires forall j :: i < j < |Matches(content)| ==> Matches(content)[j].0 != k
    ensures var r := ReadInto(d, content); k in r.vals && r.vals[k] == Coerce(Matches(content)[i].1)
  {
    PutAllLast(d, Assignments(Matches(content)), k, i);
  }

  /** Reading: a key no match names keeps its earlier value. */
  lemma ReadIntoUntouched(d: Dict, content: string, k: string)
    requires forall j :: 0 <= j < |Matches(content)| ==> Matches(content)[j].0 != k
    ensures var r := ReadInto(d, content);
      (k in r.vals <==> k in d.vals) && (k in d.vals ==> r.vals[k] == d.vals[k])
  {
    PutAllUntouched(d, Assignments(Matches(content)), k);
  }

  /** The assignment list that gives each of `ks` the value `f` holds for it. */
  function Zip(ks: seq<string>, f: map<string, Value>): (asg: seq<(string, Value)>)
    requires forall i :: 0 <= i < |ks| ==> ks[i] in f
    ensures |asg| == |ks| && forall i :: 0 <= i < |ks| ==> asg[i] == (ks[i], f[ks[i]])
  {
    seq(|ks|, i requires 0 <= i < |ks| => (ks[i], f[ks[i]]))
  }

  lemma DistinctTail(ks: seq<string>)
    requires ks != [] && Distinct(ks)
    ensures Distinct(ks[1..]) && ks[0] !in ks[1..]
  {
    var tl := ks[1..];
    forall i, j | 0 <= i < j < |tl| ensures tl[i] != tl[j] {
      assert tl[i] == ks[i + 1] && tl[j] == ks[j + 1];
    }
    forall j | 0 <= j < |tl| ensures tl[j] != ks[0] {
      assert tl[j] == ks[j + 1];
    }
  }

  /** Assigning fresh distinct keys appends them in order. */
  lemma {:induction false} PutAllFreshKeys(d: Dict, ks: seq<string>, f: map<string, Value>)
    requires Distinct(ks)
    requires forall i :: 0 <= i < |ks| ==> ks[i] in f && ks[i] !in d.vals
    ensures PutAll(d, Zip(ks, f)).keys == d.keys + ks
    decreases |ks|
  {
    if ks != [] {
      var k := ks[0];
      var tl := ks[1..];
      var d' := Put(d, k, f[k]);
      FreshTail(d, ks, f);
      PutAllFreshKeys(d', tl, f);
      ZipCons(d, ks, f);
      KeysCons(d.keys, ks);
    }
  }

  /** The keys after the first stay fresh once the first has been assigned. */
  lemma FreshTail(d: Dict, ks: seq<string>, f: map<string, Value>)
    requires ks != [] && Distinct(ks)
    requires forall i :: 0 <= i < |ks| ==> ks[i] in f && ks[i] !in d.vals
    ensures Distinct(ks[1..]) && ks[0] in f && ks[0] !in d.vals
    ensures forall i :: 0 <= i < |ks[1..]| ==> ks[1..][i] in f && ks[1..][i] !in Put(d, ks[0], f[ks[0]]).vals
  {
    DistinctTail(ks);
    assert forall i :: 0 <= i < |ks[1..]| ==> ks[1..][i] == ks[i + 1];
  }

  /** Assigning a zip is assigning its first pair, then the zip of the rest. */
  lemma ZipCons(d: Dict, ks: seq<string>, f: map<string, Value>)
    requires ks != [] && forall i :: 0 <= i < |ks| ==> ks[i] in f
    ensures forall i :: 0 <= i < |ks[1..]| ==> ks[1..][i] in f
    ensures PutAll(d, Zip(ks, f)) == PutAll(Put(d, ks[0], f[ks[0]]), Zip(ks[1..], f))
  {
    assert forall i :: 0 <= i < |ks[1..]| ==> ks[1..][i] == ks[i + 1];
    assert Zip(ks, f)[1..] == Zip(ks[1..], f);
  }

  lemma KeysCons(a: seq<string>, ks: seq<string>)
    requires ks != []
    ensures a + [ks[0]] + ks[1..] == a + ks
  {
    assert [ks[0]] + ks[1..] == ks;
  }

  /** Assigning distinct keys gives each the value it was assigned. */
  lemma PutAllFreshVals(d: Dict, ks: seq<string>, f: map<string, Value>)
    requires Distinct(ks)
    requires forall i :: 0 <= i < |ks| ==> ks[i] in f
    ensures PutAll(d, Zip(ks, f)).vals == d.vals + map k | k in ks :: f[k]
  {
    var r := PutAll(d, Zip(ks, f));
    var m := d.vals + map k | k in ks :: f[k];
    forall x ensures (x in r.vals <==> x in m) && (x in m ==> r.vals[x] == m[x]) {
      PutAllFreshAt(d, ks, f, x);
    }
  }

  lemma PutAllFreshAt(d: Dict, ks: seq<string>, f: map<string, Value>, x: string)
    requires Distinct(ks)
    requires forall i :: 0 <= i < |ks| ==> ks[i] in f
    ensures var r := PutAll(d, Zip(ks, f));
      if x in ks then x in f && x in r.vals && r.vals[x] == f[x]
      else (x in r.vals <==> x in d.vals) && (x in d.vals ==> r.vals[x] == d.vals[x])
  {
    var asg := Zip(ks, f);
    if x in ks {
      var i :| 0 <= i < |ks| && ks[i] == x;
      PutAllLast(d, asg, x, i);
    } else {
      PutAllUntouched(d, asg, x);
    }
  }

  /** What reading back the written text of a value yields. */
  function ReadBack(v: Value): Value {
    Coerce(Text(v))
  }

  /** The matches in a written file are its keys paired with their texts. */
  lemma MatchesWrite(d: Dict, stamp: string)
    requires WellFormed(d)
    requires forall k :: k in d.vals ==> KeyText(k) && LineFree(Text(d.vals[k]))
    requires '=' !in stamp
    ensures Matches(Write(d, stamp)) == Pairs(d.keys, d.vals)
  {
    forall i | 0 <= i < |d.keys| ensures KeyText(d.keys[i]) && LineFree(Text(Entry(d.vals, d.keys[i]))) {
      assert d.keys[i] in d.keys;
    }
    MatchesHeader(stamp, Body(d.keys, d.vals));
    MatchesBody(d.keys, d.vals);
  }

  lemma KeysInDomain(d: Dict, f: map<string, Value>)
    requires WellFormed(d) && f.Keys == d.vals.Keys
    ensures forall i :: 0 <= i < |d.keys| ==> d.keys[i] in f
  {
    forall i | 0 <= i < |d.keys| ensures d.keys[i] in f {
      assert d.keys[i] in d.keys;
    }
  }

  lemma MapOverKeys(d: Dict, f: map<string, Value>)
    requires WellFormed(d) && f.Keys == d.vals.Keys
    ensures Empty.vals + (map k | k in d.keys :: f[k]) == f
  {
  }

  /** The written keys of a well-formed array, each assigned once, in order. */
  lemma PutAllKeys(d: Dict, f: map<string, Value>)
    requires WellFormed(d) && f.Keys == d.vals.Keys
    ensures forall i :: 0 <= i < |d.keys| ==> d.keys[i] in f
    ensures PutAll(Empty, Zip(d.keys, f)) == Dict(d.keys, f)
  {
    KeysInDomain(d, f);
    PutAllFreshKeys(Empty, d.keys, f);
    PutAllFreshVals(Empty, d.keys, f);
    MapOverKeys(d, f);
    assert Empty.keys + d.keys == d.keys;
  }

  /** Round trip: reading what writeProperties() wrote gives every key back, in order, with
      the coerced text of its value, provided the keys fit the key class, the texts stay on
      one line and the date text holds no '='. */
  lemma PropertiesRoundTrip(d: Dict, stamp: string)
    requires WellFormed(d)
    requires forall k :: k in d.vals ==> KeyText(k) && LineFree(Text(d.vals[k]))
    requires '=' !in stamp
    ensures ReadInto(Empty, Write(d, stamp)) == Dict(d.keys, map k | k in d.vals :: ReadBack(d.vals[k]))
  {
    var f := map k | k in d.vals :: ReadBack(d.vals[k]);
    ReadWrite(d, stamp, f);
  }

  lemma ReadWrite(d: Dict, stamp: string, f: map<string, Value>)
    requires WellFormed(d)
    requires forall k :: k in d.vals ==> KeyText(k) && LineFree(Text(d.vals[k]))
    requires '=' !in stamp
    requires f == map k | k in d.vals :: ReadBack(d.vals[k])
    ensures PutAll(Empty, Assignments(Matches(Write(d, stamp)))) == Dict(d.keys, f)
  {
    MatchesWrite(d, stamp);
    ReadBackZip(d, f);
    PutAllKeys(d, f);
  }

  lemma ReadBackZip(d: Dict, f: map<string, Value>)
    requires WellFormed(d)
    requires f == map k | k in d.vals :: ReadBack(d.vals[k])
    ensures forall i :: 0 <= i < |d.keys| ==> d.keys[i] in f
    ensures Assignments(Pairs(d.keys, d.vals)) == Zip(d.keys, f)
  {
    forall i | 0 <= i < |d.keys| ensures d.keys[i] in d.vals && d.keys[i] in f {
      assert d.keys[i] in d.keys;
    }
  }

  /** Values the format carries unchanged: booleans, and one-line trimmed strings that are
      not one of the six words. */
  predicate Plain(v: Value) {
    v.Bool? || (v.Str? && Trimmed(v.s) && LineFree(v.s) && Lower(v.s) !in TrueWords + FalseWords)
  }

  lemma CoerceTrimmed(raw: string)
    requires Trimmed(raw)
    ensures Coerce(raw) ==
      if Lower(raw) in TrueWords then Bool(true)
      else if Lower(raw) in FalseWords then Bool(false)
      else Str(raw)
  {
    TrimClean(raw);
  }

  lemma ReadBackBool(b: bool)
    ensures ReadBack(Bool(b)) == Bool(b)
  {
    var t := Text(Bool(b));
    assert t == if b then "on" else "off";
    assert Trimmed(t);
    assert Lower(t) == t;
    CoerceTrimmed(t);
  }

  lemma ReadBackPlain(v: Value)
    requires Plain(v)
    ensures ReadBack(v) == v
  {
    if v.Bool? {
      ReadBackBool(v.b);
    } else {
      CoerceTrimmed(v.s);
    }
  }

  lemma PlainLineFree(v: Value)
    requires Plain(v)
    ensures LineFree(Text(v))
  {
    if v.Bool? {
      assert Text(v) == if v.b then "on" else "off";
    }
  }

  lemma ReadBackAll(d: Dict)
    requires forall k :: k in d.vals ==> Plain(d.vals[k])
    ensures forall k :: k in d.vals ==> LineFree(Text(d.vals[k]))
    ensures (map k | k in d.vals :: ReadBack(d.vals[k])) == d.vals
  {
    forall k | k in d.vals ensures LineFree(Text(d.vals[k])) && ReadBack(d.vals[k]) == d.vals[k] {
      PlainLineFree(d.vals[k]);
      ReadBackPlain(d.vals[k]);
    }
  }

  /** An array of plain values keyed by key-class keys survives a write and a read exactly. */
  lemma PropertiesRoundTripExact(d: Dict, stamp: string)
    requires WellFormed(d)
    requires forall k :: k in d.vals ==> KeyText(k) && Plain(d.vals[k])
    requires '=' !in stamp
    ensures ReadInto(Empty, Write(d, stamp)) == d
  {
    ReadBackAll(d);
    PropertiesRoundTrip(d, stamp);
  }

  lemma MatchesTwoLines(k: string, first: string, second: string)
    requires KeyText(k) && LineFree(first) && LineFree(second)
    ensures Matches(k + "=" + first + "\r\n" + k + "=" + second + "\r\n") == [(k, first), (k, second)]
  {
    var tail := k + "=" + second + "\r\n";
    LineAfter(k + "=" + first + "\r\n", k, second);
    MatchesLine(k, first, tail);
    NoRest(tail);
    MatchesLine(k, second, "");
  }

  lemma LineAfter(a: string, k: string, t: string)
    ensures a + k + "=" + t + "\r\n" == a + (k + "=" + t + "\r\n")
  {
  }

  lemma NoRest(s: string)
    ensures s + "" == s
  {
  }

  lemma PutAllTwice(k: string, a: Value, b: Value)
    ensures PutAll(Empty, [(k, a), (k, b)]) == Dict([k], map[k := b])
  {
    var asg := [(k, a), (k, b)];
    var d1 := Put(Empty, k, a);
    var d2 := Put(d1, k, b);
    assert asg[1..] == [(k, b)];
    assert asg[1..][1..] == [];
    assert PutAll(Empty, asg) == PutAll(d1, asg[1..]);
    assert PutAll(d1, asg[1..]) == PutAll(d2, []);
    assert d2.vals == map[k := b];
  }

  /** Two lines for the same key: the later one wins. */
  lemma RepeatedKey(k: string, first: string, second: string)
    requires KeyText(k) && LineFree(first) && LineFree(second)
    ensures ReadInto(Empty, k + "=" + first + "\r\n" + k + "=" + second + "\r\n") ==
      Dict([k], map[k := Coerce(second)])
  {
    MatchesTwoLines(k, first, second);
    var ms := [(k, first), (k, second)];
    var a := Coerce(first);
    var b := Coerce(second);
    assert Assignments(ms) == [(k, a), (k, b)];
    PutAllTwice(k, a, b);
  }
}
