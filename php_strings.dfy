/** The PHP string functions the configuration store relies on, on `seq<char>`:
    trim, strtolower (ASCII), explode on one character, implode, str_replace of
    CRLF by LF, and decimal rendering of integers. */
module PhpStrings {

  /** The characters trim() strips when no list is given: space, tab, LF, CR, NUL, vertical tab. */
  predicate IsTrimChar(c: char) {
    c == ' ' || c == '\t' || c == '\n' || c == '\r' || c == 0 as char || c == 11 as char
  }

  /** A string trim() leaves alone. */
  predicate Trimmed(s: string) {
    s == [] || (!IsTrimChar(s[0]) && !IsTrimChar(s[|s| - 1]))
  }

  function TrimLeft(s: string): string {
    if s != [] && IsTrimChar(s[0]) then TrimLeft(s[1..]) else s
  }

  function TrimRight(s: string): string {
    if s != [] && IsTrimChar(s[|s| - 1]) then TrimRight(s[..|s| - 1]) else s
  }

  /** PHP trim(): strips trim characters from both ends. */
  function Trim(s: string): string {
    TrimRight(TrimLeft(s))
  }

  /** ltrim() keeps a suffix that does not start with a trim character. */
  lemma {:induction false} TrimLeftSpec(s: string)
    ensures var r := TrimLeft(s); |r| <= |s| && r == s[|s| - |r|..] && (r == [] || !IsTrimChar(r[0]))
    ensures !(s != [] && IsTrimChar(s[0])) ==> TrimLeft(s) == s
    decreases |s|
  {
    if s != [] && IsTrimChar(s[0]) {
      TrimLeftSpec(s[1..]);
      var r := TrimLeft(s[1..]);
      assert s[1..][|s| - 1 - |r|..] == s[|s| - |r|..];
    }
  }

  /** rtrim() keeps a prefix that does not end with a trim character. */
  lemma {:induction false} TrimRightSpec(s: string)
    ensures var r := TrimRight(s); |r| <= |s| && r == s[..|r|] && (r == [] || !IsTrimChar(r[|r| - 1]))
    ensures !(s != [] && IsTrimChar(s[|s| - 1])) ==> TrimRight(s) == s
    decreases |s|
  {
    if s != [] && IsTrimChar(s[|s| - 1]) {
      TrimRightSpec(s[..|s| - 1]);
      var r := TrimRight(s[..|s| - 1]);
      assert s[..|s| - 1][..|r|] == s[..|r|];
    }
  }

  /** ltrim() removes trim characters only. */
  lemma {:induction false} TrimLeftStrips(s: string)
    ensures |TrimLeft(s)| <= |s| && forall m :: 0 <= m < |s| - |TrimLeft(s)| ==> IsTrimChar(s[m])
    decreases |s|
  {
    if s != [] && IsTrimChar(s[0]) {
      TrimLeftStrips(s[1..]);
      forall m | 1 <= m < |s| - |TrimLeft(s)| ensures IsTrimChar(s[m]) {
        assert s[m] == s[1..][m - 1];
      }
    }
  }

  /** rtrim() removes trim characters only. */
  lemma {:induction false} TrimRightStrips(s: string)
    ensures |TrimRight(s)| <= |s| && forall m :: |TrimRight(s)| <= m < |s| ==> IsTrimChar(s[m])
    decreases |s|
  {
    if s != [] && IsTrimChar(s[|s| - 1]) {
      TrimRightStrips(s[..|s| - 1]);
      forall m | |TrimRight(s)| <= m < |s| - 1 ensures IsTrimChar(s[m]) {
        assert s[m] == s[..|s| - 1][m];
      }
    }
  }

  /** trim() cuts a trimmed middle out of the string, and all it cuts away on either side are
      trim characters; a trimmed string is left alone. */
  lemma TrimSpec(s: string)
    ensures Trimmed(Trim(s))
    ensures Trimmed(s) ==> Trim(s) == s
    ensures exists i, j ::
              0 <= i <= j <= |s| && Trim(s) == s[i..j] && forall m :: 0 <= m < i || j <= m < |s| ==> IsTrimChar(s[m])
  {
    TrimClean(s);
    var i, j := TrimCut(s);
  }

  /** Where trim() cuts. */
  lemma TrimCut(s: string) returns (i: nat, j: nat)
    ensures i <= j <= |s| && Trim(s) == s[i..j]
    ensures forall m :: 0 <= m < i || j <= m < |s| ==> IsTrimChar(s[m])
  {
    var l := TrimLeft(s);
    TrimLeftSpec(s);
    TrimLeftStrips(s);
    TrimRightSpec(l);
    TrimRightStrips(l);
    i := |s| - |l|;
    j := i + |TrimRight(l)|;
    assert l == s[i..];
    assert Trim(s) == l[..j - i];
    forall m | j <= m < |s| ensures IsTrimChar(s[m]) {
      assert s[m] == l[m - i];
    }
  }

  /** trim() leaves a trimmed string, and leaves a trimmed string alone. */
  lemma TrimClean(s: string)
    ensures Trimmed(Trim(s))
    ensures Trimmed(s) ==> Trim(s) == s
  {
    var l := TrimLeft(s);
    TrimLeftSpec(s);
    TrimRightSpec(l);
    var r := TrimRight(l);
    if r != [] {
      assert r[0] == l[0];
    }
  }

  /** strtolower() on one character: only ASCII letters change. */
  function LowerChar(c: char): char {
    if 'A' <= c <= 'Z' then (c as int + 32) as char else c
  }

  function Lower(s: string): (r: string)
    ensures |r| == |s|
    ensures forall i :: 0 <= i < |s| ==> r[i] == LowerChar(s[i])
  {
    seq(|s|, i requires 0 <= i < |s| => LowerChar(s[i]))
  }

  /** strtolower() leaves a string without upper-case ASCII letters alone. */
  lemma LowerUnchanged(s: string)
    requires forall i :: 0 <= i < |s| ==> !('A' <= s[i] <= 'Z')
    ensures Lower(s) == s
  {
  }

  /** Index of the first occurrence of `c` in `s`. */
  function IndexOf(s: string, c: char): (i: nat)
    requires c in s
    ensures i < |s| && s[i] == c && c !in s[..i]
  {
    if s[0] == c then 0 else 1 + IndexOf(s[1..], c)
  }

  /** The first occurrence comes no later than any occurrence. */
  lemma {:induction false} IndexOfFirst(s: string, c: char, j: nat)
    requires j < |s| && s[j] == c
    ensures IndexOf(s, c) <= j
  {
    if s[0] != c {
      IndexOfFirst(s[1..], c, j - 1);
    }
  }

  /** explode($sep, $s) for a one-character separator: the pieces between separators,
      always at least one. */
  function Split(s: string, sep: char): (parts: seq<string>)
    ensures |parts| >= 1
    decreases |s|
  {
    if sep in s then
      var i := IndexOf(s, sep);
      [s[..i]] + Split(s[i + 1..], sep)
    else
      [s]
  }

  /** implode($sep, $parts). */
  function Join(parts: seq<string>, sep: string): string
  {
    if |parts| == 0 then ""
    else if |parts| == 1 then parts[0]
    else parts[0] + sep + Join(parts[1..], sep)
  }

  /** str_replace("\r\n", "\n", $s): left-to-right, non-overlapping. */
  function ReplaceCrLf(s: string): string
  {
    if |s| >= 2 && s[0] == '\r' && s[1] == '\n' then "\n" + ReplaceCrLf(s[2..])
    else if s == [] then []
    else [s[0]] + ReplaceCrLf(s[1..])
  }

  predicate HasPrefix(s: string, p: string) {
    |p| <= |s| && s[..|p|] == p
  }

  function Digit(d: nat): char
    requires d < 10
  {
    "0123456789"[d]
  }

  function NatToString(n: nat): (r: string)
    ensures |r| >= 1 && forall i :: 0 <= i < |r| ==> '0' <= r[i] <= '9'
  {
    if n < 10 then [Digit(n)] else NatToString(n / 10) + [Digit(n % 10)]
  }

  /** PHP's conversion of an int to a string: decimal, with a leading '-' when negative. */
  function IntToString(i: int): (r: string)
    ensures |r| >= 1 && Trimmed(r)
    ensures forall j :: 0 <= j < |r| ==> r[j] == '-' || '0' <= r[j] <= '9'
  {
    if i < 0 then "-" + NatToString(-i) else NatToString(i)
  }

  // ---------------------------------------------------------------------------
  // Properties of the helpers used by the codec round trips.

  lemma {:induction false} SplitJoin(parts: seq<string>, sep: char)
    requires |parts| >= 1
    requires forall i :: 0 <= i < |parts| ==> sep !in parts[i]
    ensures Split(Join(parts, [sep]), sep) == parts
  {
    if |parts| > 1 {
      var s := Join(parts, [sep]);
      var rest := Join(parts[1..], [sep]);
      assert s == parts[0] + [sep] + rest;
      assert s[|parts[0]|] == sep;
      assert s[..|parts[0]|] == parts[0];
      assert IndexOf(s, sep) == |parts[0]|;
      assert s[|parts[0]| + 1..] == rest;
      SplitJoin(parts[1..], sep);
    }
  }

  lemma {:induction false} ReplaceCrLfAppend(a: string, b: string)
    requires a == [] || a[|a| - 1] != '\r'
    ensures ReplaceCrLf(a + b) == ReplaceCrLf(a) + ReplaceCrLf(b)
    decreases |a|
  {
    if a == [] {
      assert a + b == b;
    } else if |a| >= 2 && a[0] == '\r' && a[1] == '\n' {
      ReplaceCrLfPair(a, b);
      LastKept(a, 2);
      ReplaceCrLfAppend(a[2..], b);
      Assoc("\n", ReplaceCrLf(a[2..]), ReplaceCrLf(b));
    } else {
      ReplaceCrLfOne(a, b);
      LastKept(a, 1);
      ReplaceCrLfAppend(a[1..], b);
      Assoc([a[0]], ReplaceCrLf(a[1..]), ReplaceCrLf(b));
    }
  }

  lemma Assoc(x: string, y: string, z: string)
    ensures x + y + z == x + (y + z)
  {
  }

  /** Dropping a prefix keeps the last character, if any is left. */
  lemma LastKept(a: string, n: nat)
    requires n <= |a| && a != [] && a[|a| - 1] != '\r'
    ensures a[n..] == [] || a[n..][|a[n..]| - 1] != '\r'
  {
  }

  /** A leading CRLF of `a` is also the leading CRLF of `a + b`. */
  lemma ReplaceCrLfPair(a: string, b: string)
    requires |a| >= 2 && a[0] == '\r' && a[1] == '\n'
    ensures ReplaceCrLf(a + b) == "\n" + ReplaceCrLf(a[2..] + b)
    ensures ReplaceCrLf(a) == "\n" + ReplaceCrLf(a[2..])
  {
    assert (a + b)[2..] == a[2..] + b;
  }

  /** A leading character of `a` that does not start a CRLF of `a` does not start one of
      `a + b` either, when `a` does not end with CR. */
  lemma ReplaceCrLfOne(a: string, b: string)
    requires a != [] && a[|a| - 1] != '\r'
    requires !(|a| >= 2 && a[0] == '\r' && a[1] == '\n')
    ensures ReplaceCrLf(a + b) == [a[0]] + ReplaceCrLf(a[1..] + b)
    ensures ReplaceCrLf(a) == [a[0]] + ReplaceCrLf(a[1..])
  {
    assert |a| >= 2 || a[0] != '\r';
    assert (a + b)[1..] == a[1..] + b;
  }

  lemma {:induction false} ReplaceCrLfNoLf(s: string)
    requires '\n' !in s
    ensures ReplaceCrLf(s) == s
    decreases |s|
  {
    if s != [] {
      assert '\n' !in s[1..];
      ReplaceCrLfNoLf(s[1..]);
    }
  }

  lemma {:induction false} JoinFirstLast(parts: seq<string>, sep: string)
    requires |parts| >= 1
    ensures |Join(parts, sep)| >= |parts[0]| && Join(parts, sep)[..|parts[0]|] == parts[0]
    ensures |Join(parts, sep)| >= |parts[|parts| - 1]|
    ensures Join(parts, sep)[|Join(parts, sep)| - |parts[|parts| - 1]|..] == parts[|parts| - 1]
  {
    if |parts| > 1 {
      JoinFirstLast(parts[1..], sep);
    }
  }
}
