/** The enumeration list format (Config::ENUM, files .txt/.list/.enum): one key
    per line. Reading is parseList (Util/Config.php), writing is the ENUM branch of
    save(). */
module ListCodec {
  import opened PhpStrings
  import opened PhpValues

  /** explode("\n", trim(str_replace("\r\n", "\n", $content))). */
  function Lines(content: string): seq<string> {
    Split(Trim(ReplaceCrLf(content)), '\n')
  }

  /** The trimmed, non-blank lines, in order: the keys parseList sets. */
  function Tokens(lines: seq<string>): seq<string>
  {
    if lines == [] then []
    else
      var init := Tokens(lines[..|lines| - 1]);
      var t := Trim(lines[|lines| - 1]);
      if t == "" then init else init + [t]
  }

  /** $this->config[$t] = true for each token in turn. */
  function PutTrue(d: Dict, ts: seq<string>): Dict {
    if ts == [] then d else Put(PutTrue(d, ts[..|ts| - 1]), ts[|ts| - 1], Bool(true))
  }

  /** One turn of parseList's loop: a blank line changes nothing, any other sets its
      trimmed text to true. */
  function Step(d: Dict, line: string): Dict {
    var t := Trim(line);
    if t == "" then d else Put(d, t, Bool(true))
  }

  /** The loop of parseList over `lines`, first line first. */
  function Scan(d: Dict, lines: seq<string>): Dict
    decreases |lines|
  {
    if lines == [] then d else Scan(Step(d, lines[0]), lines[1..])
  }

  /** The last line is scanned last. */
  lemma {:induction false} ScanLast(d: Dict, lines: seq<string>)
    requires lines != []
    ensures Scan(d, lines) == Step(Scan(d, lines[..|lines| - 1]), lines[|lines| - 1])
    decreases |lines|
  {
    var init := lines[..|lines| - 1];
    if |lines| == 1 {
      assert init == [] && lines[1..] == [];
    } else {
      ScanLast(Step(d, lines[0]), lines[1..]);
      assert lines[1..][..|lines| - 2] == init[1..];
      assert init[0] == lines[0];
    }
  }

  /** The token of the last line, if it has one, is put last. */
  lemma ReadLast(d: Dict, lines: seq<string>)
    requires lines != []
    ensures PutTrue(d, Tokens(lines)) == Step(PutTrue(d, Tokens(lines[..|lines| - 1])), lines[|lines| - 1])
  {
    var ts := Tokens(lines[..|lines| - 1]);
    var t := Trim(lines[|lines| - 1]);
    if t == "" {
      assert Tokens(lines) == ts + [] == ts;
    } else {
      assert Tokens(lines) == ts + [t];
      assert (ts + [t])[..|ts|] == ts;
    }
  }

  /** One turn of the loop over `lines[i..]`. */
  lemma ScanAt(d: Dict, lines: seq<string>, i: nat)
    requires i < |lines|
    ensures Scan(d, lines[i..]) == Scan(Step(d, lines[i]), lines[i + 1..])
  {
    assert lines[i..][0] == lines[i] && lines[i..][1..] == lines[i + 1..];
  }

  /** The loop computes the tokens and puts each of them, in order. */
  lemma {:induction false} ScanTokens(d: Dict, lines: seq<string>)
    ensures Scan(d, lines) == PutTrue(d, Tokens(lines))
    decreases |lines|
  {
    if lines != [] {
      ScanLast(d, lines);
      ScanTokens(d, lines[..|lines| - 1]);
      ReadLast(d, lines);
    }
  }

  /** The array parseList($content) leaves when it starts from `d`. */
  function ReadInto(d: Dict, content: string): Dict {
    PutTrue(d, Tokens(Lines(content)))
  }

  /** implode("\r\n", array_keys($this->config)): keys only, values dropped. */
  function Write(d: Dict): string {
    Join(d.keys, "\r\n")
  }

  /** `true` at each of the given keys. */
  function TrueOn(ts: seq<string>): map<string, Value> {
    map k | k in ts :: Bool(true)
  }

  /** What a list file can carry of `d`: its keys, in order, each mapped to true. */
  function Listed(d: Dict): Dict {
    Dict(d.keys, map k | k in d.vals :: Bool(true))
  }

  // ---------------------------------------------------------------------------

  /** A token is a line of the input, trimmed and not blank; every such line is a token. */
  lemma TokensOfLines(lines: seq<string>, t: string)
    ensures t in Tokens(lines) <==> t != "" && exists i :: 0 <= i < |lines| && Trim(lines[i]) == t
  {
    if t in Tokens(lines) {
      var i := TokenLine(lines, t);
      TokensClean(lines, t);
    }
    if t != "" && exists i :: 0 <= i < |lines| && Trim(lines[i]) == t {
      var i :| 0 <= i < |lines| && Trim(lines[i]) == t;
      LineToken(lines, i);
    }
  }

  /** Each token comes from a line. */
  lemma {:induction false} TokenLine(lines: seq<string>, t: string) returns (i: nat)
    requires t in Tokens(lines)
    ensures i < |lines| && Trim(lines[i]) == t
    decreases |lines|
  {
    var n := |lines| - 1;
    var ts := Tokens(lines[..n]);
    assert Tokens(lines) == if Trim(lines[n]) == "" then ts else ts + [Trim(lines[n])];
    if t in ts {
      i := TokenLine(lines[..n], t);
      assert lines[..n][i] == lines[i];
    } else {
      i := n;
    }
  }

  /** Each non-blank line gives a token. */
  lemma {:induction false} LineToken(lines: seq<string>, i: nat)
    requires i < |lines| && Trim(lines[i]) != ""
    ensures Trim(lines[i]) in Tokens(lines)
    decreases |lines|
  {
    var n := |lines| - 1;
    if i < n {
      assert lines[..n][i] == lines[i];
      LineToken(lines[..n], i);
      TokensGrow(lines, Trim(lines[i]));
    } else {
      TokensLast(lines);
    }
  }

  /** The tokens of the lines before the last are kept. */
  lemma TokensGrow(lines: seq<string>, t: string)
    requires lines != [] && t in Tokens(lines[..|lines| - 1])
    ensures t in Tokens(lines)
  {
  }

  /** A non-blank last line gives a token. */
  lemma TokensLast(lines: seq<string>)
    requires lines != [] && Trim(lines[|lines| - 1]) != ""
    ensures Trim(lines[|lines| - 1]) in Tokens(lines)
  {
  }

  /** Every token is trimmed and not blank. */
  lemma TokensClean(lines: seq<string>, t: string)
    requires t in Tokens(lines)
    ensures t != "" && Trimmed(t)
  {
    var i := TokenLine(lines, t);
    TrimClean(lines[i]);
  }

  /** What parseList stores: `true` at each token, earlier values at every other key. */
  lemma {:induction false} PutTrueValues(d: Dict, ts: seq<string>, k: string)
    ensures var r := PutTrue(d, ts);
      (k in ts ==> k in r.vals && r.vals[k] == Bool(true)) &&
      (k !in ts ==> (k in r.vals <==> k in d.vals) && (k in d.vals ==> r.vals[k] == d.vals[k]))
  {
    if ts != [] {
      PutTrueValues(d, ts[..|ts| - 1], k);
      assert k in ts <==> k in ts[..|ts| - 1] || k == ts[|ts| - 1];
    }
  }

  /** Reading a list: a key is set to true exactly when it is a non-blank trimmed line of
      the content (after CRLF became LF); other keys keep their values. */
  lemma ReadIntoSpec(d: Dict, content: string, k: string)
    ensures var r := ReadInto(d, content);
      ((k != "" && exists i :: 0 <= i < |Lines(content)| && Trim(Lines(content)[i]) == k) ==>
        k in r.vals && r.vals[k] == Bool(true)) &&
      (!(k != "" && exists i :: 0 <= i < |Lines(content)| && Trim(Lines(content)[i]) == k) ==>
        (k in r.vals <==> k in d.vals) && (k in d.vals ==> r.vals[k] == d.vals[k]))
  {
    TokensOfLines(Lines(content), k);
    PutTrueValues(d, Tokens(Lines(content)), k);
  }

  /** parseList keeps the array well formed. */
  lemma ReadIntoWellFormed(d: Dict, content: string)
    requires WellFormed(d)
    ensures WellFormed(ReadInto(d, content))
  {
    PutTrueWellFormed(d, Tokens(Lines(content)));
  }

  lemma {:induction false} PutTrueWellFormed(d: Dict, ts: seq<string>)
    requires WellFormed(d)
    ensures WellFormed(PutTrue(d, ts))
  {
    if ts != [] {
      PutTrueWellFormed(d, ts[..|ts| - 1]);
      PutWellFormed(PutTrue(d, ts[..|ts| - 1]), ts[|ts| - 1], Bool(true));
    }
  }

  /** Putting distinct keys into an empty array lists them in that order. */
  lemma {:induction false} PutTrueFresh(ts: seq<string>)
    requires Distinct(ts)
    ensures PutTrue(Empty, ts) == Dict(ts, TrueOn(ts))
  {
    if ts != [] {
      var init := ts[..|ts| - 1];
      DistinctInit(ts);
      PutTrueFresh(init);
      assert init + [ts[|ts| - 1]] == ts;
      assert TrueOn(init)[ts[|ts| - 1] := Bool(true)] == TrueOn(ts);
    }
  }

  /** A key the list format can carry: one non-blank trimmed line. */
  predicate ListKey(k: string) {
    k != "" && Trimmed(k) && '\n' !in k
  }

  lemma {:induction false} ReplaceCrLfJoin(ks: seq<string>)
    requires forall i :: 0 <= i < |ks| ==> ListKey(ks[i])
    ensures ReplaceCrLf(Join(ks, "\r\n")) == Join(ks, "\n")
  {
    if |ks| == 1 {
      ReplaceCrLfNoLf(ks[0]);
    } else if |ks| > 1 {
      var rest := Join(ks[1..], "\r\n");
      assert Join(ks, "\r\n") == ks[0] + ("\r\n" + rest);
      ReplaceCrLfAppend(ks[0], "\r\n" + rest);
      ReplaceCrLfNoLf(ks[0]);
      assert ("\r\n" + rest)[2..] == rest;
      ReplaceCrLfJoin(ks[1..]);
      assert Join(ks, "\n") == ks[0] + "\n" + Join(ks[1..], "\n");
    }
  }

  lemma {:induction false} TokensOfKeys(ks: seq<string>)
    requires forall i :: 0 <= i < |ks| ==> ListKey(ks[i])
    ensures Tokens(ks) == ks
  {
    if ks != [] {
      var init := ks[..|ks| - 1];
      assert forall i :: 0 <= i < |init| ==> ListKey(init[i]) by {
        forall i | 0 <= i < |init| ensures ListKey(init[i]) {
          assert init[i] == ks[i];
        }
      }
      TokensOfKeys(init);
      TokensKeyLast(ks);
      assert init + [ks[|ks| - 1]] == ks;
    }
  }

  /** A list key as the last line is its own token. */
  lemma TokensKeyLast(ks: seq<string>)
    requires ks != [] && ListKey(ks[|ks| - 1])
    ensures Tokens(ks) == Tokens(ks[..|ks| - 1]) + [ks[|ks| - 1]]
  {
    TrimClean(ks[|ks| - 1]);
  }

  lemma LinesOfJoin(ks: seq<string>)
    requires |ks| >= 1 && forall i :: 0 <= i < |ks| ==> ListKey(ks[i])
    ensures Lines(Join(ks, "\r\n")) == ks
  {
    ReplaceCrLfJoin(ks);
    var joined := Join(ks, "\n");
    JoinFirstLast(ks, "\n");
    assert joined[0] == ks[0][0];
    assert joined[|joined| - 1] == ks[|ks| - 1][|ks[|ks| - 1]| - 1];
    assert Trimmed(joined);
    TrimClean(joined);
    SplitJoin(ks, '\n');
  }

  lemma ReadEmpty()
    ensures ReadInto(Empty, "") == Empty
  {
    assert ReplaceCrLf("") == "";
    assert Trim("") == "";
    assert Split("", '\n') == [""];
    assert Tokens([""]) == Tokens([]) + [];
  }

  /** Every key of a well-formed array is one of its listed keys. */
  lemma ListKeysIndexed(d: Dict)
    requires WellFormed(d)
    requires forall k :: k in d.vals ==> ListKey(k)
    ensures forall i :: 0 <= i < |d.keys| ==> ListKey(d.keys[i])
  {
    forall i | 0 <= i < |d.keys| ensures ListKey(d.keys[i]) {
      assert d.keys[i] in d.keys;
    }
  }

  /** Reading list-format keys joined by CRLF performs one assignment per key, in order. */
  lemma ReadJoin(ks: seq<string>)
    requires |ks| >= 1 && forall i :: 0 <= i < |ks| ==> ListKey(ks[i])
    ensures ReadInto(Empty, Join(ks, "\r\n")) == PutTrue(Empty, ks)
  {
    LinesOfJoin(ks);
    TokensOfKeys(ks);
  }

  lemma TrueAtKeys(d: Dict)
    requires WellFormed(d)
    ensures TrueOn(d.keys) == Listed(d).vals
  {
  }

  /** Round trip: reading back what the ENUM branch of save() wrote recovers every key, in
      order, each mapped to true (the values themselves are not written). */
  lemma ListRoundTrip(d: Dict)
    requires WellFormed(d)
    requires forall k :: k in d.vals ==> ListKey(k)
    ensures ReadInto(Empty, Write(d)) == Listed(d)
  {
    if d.keys == [] {
      ReadEmpty();
      assert d.vals == map[];
      assert Listed(d) == Empty;
    } else {
      ListKeysIndexed(d);
      ReadJoin(d.keys);
      PutTrueFresh(d.keys);
      TrueAtKeys(d);
    }
  }

  lemma ExampleWrite(d: Dict)
    requires d == Dict(["foo", "bar", "baz"], map["foo" := Bool(true), "bar" := Bool(true), "baz" := Bool(true)])
    ensures Write(d) == "foo\r\nbar\r\nbaz"
  {
  }

  lemma ExampleShape(d: Dict)
    requires d == Dict(["foo", "bar", "baz"], map["foo" := Bool(true), "bar" := Bool(true), "baz" := Bool(true)])
    ensures WellFormed(d) && forall k :: k in d.vals ==> ListKey(k)
    ensures Listed(d) == d
  {
    ExampleKeys(d);
    ExampleListed(d);
  }

  lemma ExampleKeys(d: Dict)
    requires d == Dict(["foo", "bar", "baz"], map["foo" := Bool(true), "bar" := Bool(true), "baz" := Bool(true)])
    ensures WellFormed(d) && forall k :: k in d.vals ==> ListKey(k)
  {
    assert "foo"[0] != "bar"[0] && "foo"[0] != "baz"[0] && "bar"[2] != "baz"[2];
  }

  lemma ExampleListed(d: Dict)
    requires d == Dict(["foo", "bar", "baz"], map["foo" := Bool(true), "bar" := Bool(true), "baz" := Bool(true)])
    ensures Listed(d) == d
  {
    assert Listed(d).vals == d.vals;
  }

  /** The array foo, bar, baz (all true) is written as "foo\r\nbar\r\nbaz" and reads back
      unchanged. */
  lemma ListExample(d: Dict)
    requires d == Dict(["foo", "bar", "baz"], map["foo" := Bool(true), "bar" := Bool(true), "baz" := Bool(true)])
    ensures Write(d) == "foo\r\nbar\r\nbaz"
    ensures ReadInto(Empty, Write(d)) == d
  {
    ExampleWrite(d);
    ExampleShape(d);
    ListRoundTrip(d);
  }
}
