/** Option, used for Python's "no value" results and raised errors. */
module Optional {
  datatype Option<+T> = None | Some(value: T)
}

/**
 * The Python `str` operations the dataset scripts rely on: `isspace`,
 * `endswith`, `rstrip(chars)`, argument-less `strip()` and `split()`, and the
 * line a text file's `readline()` returns.
 */
module PyText {
  import opened Optional

  /** `c.isspace()`: the characters argument-less `split()` and `strip()` treat as whitespace. */
  predicate IsSpace(c: char) {
    c == ' ' || ('\t' <= c <= '\r') || ('\U{1C}' <= c <= '\U{1F}') || c == '\U{85}' || c == '\U{A0}'
    || c == '\U{1680}' || ('\U{2000}' <= c <= '\U{200A}') || c == '\U{2028}' || c == '\U{2029}'
    || c == '\U{202F}' || c == '\U{205F}' || c == '\U{3000}'
  }

  predicate AllSpace(s: string) {
    forall i :: 0 <= i < |s| ==> IsSpace(s[i])
  }

  predicate NoSpace(s: string) {
    forall i :: 0 <= i < |s| ==> !IsSpace(s[i])
  }

  /** `s.endswith(suffix)` */
  predicate EndsWith(s: string, suffix: string) {
    |suffix| <= |s| && s[|s| - |suffix|..] == suffix
  }

  /** `s.rstrip(chars)`: removes every trailing character that belongs to the SET `chars`. */
  function RStrip(s: string, chars: set<char>): (r: string)
    ensures |r| <= |s| && r == s[..|r|]
    ensures r == [] || r[|r| - 1] !in chars
    ensures forall i :: |r| <= i < |s| ==> s[i] in chars
  {
    if |s| > 0 && s[|s| - 1] in chars then RStrip(s[..|s| - 1], chars) else s
  }

  /** `s.lstrip()` */
  function LStrip(s: string): (r: string)
    ensures |r| <= |s|
  {
    if |s| > 0 && IsSpace(s[0]) then LStrip(s[1..]) else s
  }

  /** `lstrip()` removes exactly the leading whitespace: what it keeps is a suffix of `s` not starting with whitespace. */
  lemma {:induction false} LStripLeading(s: string)
    ensures var r := LStrip(s);
            r == s[|s| - |r|..] && (r == [] || !IsSpace(r[0])) && AllSpace(s[..|s| - |r|])
  {
    if |s| > 0 && IsSpace(s[0]) {
      LStripLeading(s[1..]);
      var r := LStrip(s[1..]);
      assert s[1..][|s| - 1 - |r|..] == s[|s| - |r|..];
      assert s[..|s| - |r|] == [s[0]] + s[1..][..|s| - 1 - |r|];
    }
  }

  /** `s.rstrip()` */
  function RStripSpace(s: string): (r: string)
    ensures |r| <= |s|
  {
    if |s| > 0 && IsSpace(s[|s| - 1]) then RStripSpace(s[..|s| - 1]) else s
  }

  /** `rstrip()` removes exactly the trailing whitespace: what it keeps is a prefix of `s` not ending with whitespace. */
  lemma {:induction false} RStripTrailing(s: string)
    ensures var r := RStripSpace(s);
            r == s[..|r|] && (r == [] || !IsSpace(r[|r| - 1])) && AllSpace(s[|r|..])
  {
    if |s| > 0 && IsSpace(s[|s| - 1]) {
      var t := s[..|s| - 1];
      RStripTrailing(t);
      var r := RStripSpace(t);
      assert t[..|r|] == s[..|r|];
      assert s[|r|..] == t[|r|..] + [s[|s| - 1]];
    }
  }

  /** `s.strip()`: `s` without its leading and trailing whitespace. */
  function Strip(s: string): string {
    RStripSpace(LStrip(s))
  }

  /**
   * What `strip()` keeps neither starts nor ends with whitespace, and is a
   * slice of `s` with only whitespace on either side.
   */
  lemma StripIsSlice(s: string)
    ensures var r := Strip(s);
            && (r == [] || (!IsSpace(r[0]) && !IsSpace(r[|r| - 1])))
            && exists i :: 0 <= i <= |s| - |r| && s[i..i + |r|] == r && AllSpace(s[..i]) && AllSpace(s[i + |r|..])
  {
    var l := LStrip(s);
    var r := RStripSpace(l);
    LStripLeading(s);
    RStripTrailing(l);
    var i := |s| - |l|;
    assert r != [] ==> r[0] == l[0];
    assert s[i..i + |r|] == r;
    assert s[i + |r|..] == l[|r|..];
  }

  /** The maximal prefix of `s` holding no whitespace. */
  function Token(s: string): (t: string)
    ensures |t| <= |s|
  {
    if s == [] || IsSpace(s[0]) then [] else [s[0]] + Token(s[1..])
  }

  /** The token is a whitespace-free prefix of `s`, followed by whitespace or the end of `s`. */
  lemma {:induction false} TokenIsWord(s: string)
    ensures var t := Token(s);
            t == s[..|t|] && NoSpace(t) && (|t| == |s| || IsSpace(s[|t|]))
  {
    if !(s == [] || IsSpace(s[0])) {
      TokenIsWord(s[1..]);
      var t := Token(s[1..]);
      assert [s[0]] + t == s[..|t| + 1];
    }
  }

  /**
   * `s.split(maxsplit=1)[0]`: the first whitespace-delimited token of `s`.
   * When `s` is all whitespace, `split` yields an empty list and indexing it
   * raises; that case is `None`.
   */
  function FirstToken(s: string): Option<string> {
    var l := LStrip(s);
    if l == [] then None else Some(Token(l))
  }

  /**
   * There is no token exactly when `s` is all whitespace; otherwise the token
   * is non-empty, holds no whitespace and is the first word of `s`: only
   * whitespace before it, and whitespace or the end after it.
   */
  lemma FirstTokenIsFirstWord(s: string)
    ensures FirstToken(s).None? <==> AllSpace(s)
    ensures FirstToken(s).Some? ==>
              var t := FirstToken(s).value;
              && t != [] && NoSpace(t)
              && exists i :: 0 <= i <= |s| - |t| && AllSpace(s[..i]) && s[i..i + |t|] == t && (i + |t| == |s| || IsSpace(s[i + |t|]))
  {
    var l := LStrip(s);
    LStripLeading(s);
    assert l == [] ==> s[..|s|] == s;
    if l != [] {
      var t := Token(l);
      TokenIsWord(l);
      var i := |s| - |l|;
      assert !IsSpace(s[i]);
      assert s[i..i + |t|] == t;
      assert i + |t| < |s| ==> s[i + |t|] == l[|t|];
    }
  }

  /**
   * The length of the line `readline()` returns from the start of `s`: up to
   * and including the first '\n', or all of `s` when it has none.
   */
  function LineLength(s: string): (n: nat)
    ensures n <= |s|
    ensures s != [] ==> 0 < n
    ensures forall i :: 0 <= i < n - 1 ==> s[i] != '\n'
    ensures 0 < n < |s| ==> s[n - 1] == '\n'
    ensures n == |s| || s[n - 1] == '\n'
  {
    if s == [] then 0 else if s[0] == '\n' then 1 else 1 + LineLength(s[1..])
  }

  /** The successive results of `readline()` on a text whose content is `s`, until it returns "". */
  function Lines(s: string): (ls: seq<string>)
    ensures forall k :: 0 <= k < |ls| ==> ls[k] != []
    decreases |s|
  {
    if s == [] then [] else var n := LineLength(s); [s[..n]] + Lines(s[n..])
  }

  /** `Lines` unfolded once: the first line, then the lines of the rest. */
  lemma LinesStep(s: string)
    ensures Lines(s) == if s == [] then [] else [s[..LineLength(s)]] + Lines(s[LineLength(s)..])
  {
  }

  /** The concatenation of a sequence of strings. */
  function Concat(ss: seq<string>): string {
    if ss == [] then [] else ss[0] + Concat(ss[1..])
  }

  /** A line as `readline()` delimits it: non-empty, '\n' only as its last character. */
  predicate IsLine(line: string) {
    line != [] && forall i :: 0 <= i < |line| - 1 ==> line[i] != '\n'
  }

  /** Reading the lines back and joining them gives the text again. */
  lemma {:induction false} LinesConcat(s: string)
    ensures Concat(Lines(s)) == s
    decreases |s|
  {
    if s != [] {
      var n := LineLength(s);
      var rest := Lines(s[n..]);
      LinesStep(s);
      assert Lines(s) == [s[..n]] + rest;
      LinesConcat(s[n..]);
      ConcatCons(s[..n], rest);
      assert Concat(Lines(s)) == s[..n] + s[n..];
      assert s[..n] + s[n..] == s;
    }
  }

  lemma ConcatCons(x: string, ss: seq<string>)
    ensures Concat([x] + ss) == x + Concat(ss)
  {
    assert ([x] + ss)[1..] == ss;
  }

  /** Each line read is a line, and every line but the last ends with '\n'. */
  lemma {:induction false} LinesAreLines(s: string)
    ensures forall k :: 0 <= k < |Lines(s)| ==> IsLine(Lines(s)[k])
    ensures forall k :: 0 <= k < |Lines(s)| - 1 ==> Lines(s)[k][|Lines(s)[k]| - 1] == '\n'
    decreases |s|
  {
    if s != [] {
      var n := LineLength(s);
      var ls := Lines(s);
      var rest := Lines(s[n..]);
      assert ls == [s[..n]] + rest;
      LinesAreLines(s[n..]);
      assert IsLine(s[..n]);
      assert rest != [] ==> n < |s|;
      forall k | 0 <= k < |ls|
        ensures IsLine(ls[k]) && (k < |ls| - 1 ==> ls[k][|ls[k]| - 1] == '\n')
      {
        if k > 0 {
          assert ls[k] == rest[k - 1];
        }
      }
    }
  }

  /** A line ending in '\n' followed by more text is read as that line and then the rest. */
  lemma {:induction false} LinesOfLine(line: string, rest: string)
    requires IsLine(line) && line[|line| - 1] == '\n'
    ensures Lines(line + rest) == [line] + Lines(rest)
  {
    LineLengthOfLine(line, rest);
    assert (line + rest)[..|line|] == line;
    assert (line + rest)[|line|..] == rest;
  }

  lemma {:induction false} LineLengthOfLine(line: string, rest: string)
    requires IsLine(line) && line[|line| - 1] == '\n'
    ensures LineLength(line + rest) == |line|
    decreases |line|
  {
    if |line| > 1 {
      assert (line + rest)[1..] == line[1..] + rest;
      LineLengthOfLine(line[1..], rest);
    }
  }
}
