/**
 * The behaviour of Python's built-in `str` methods that sphinx_multiversion/git.py
 * relies on: `isspace`, `strip()`, `split(sep)`, `split()`, `splitlines()`,
 * one-character `replace` and `partition(sep)[2]`.  Strings are sequences of
 * Unicode code points, as Python 3 `str` values are.
 */
module PyStr {

  /** `c.isspace()`; the regular-expression class `\s` of a `str` pattern is the same set. */
  predicate IsSpace(c: char) {
    var n := c as int;
    || 0x09 <= n <= 0x0D
    || 0x1C <= n <= 0x20
    || n == 0x85 || n == 0xA0 || n == 0x1680
    || 0x2000 <= n <= 0x200A
    || n == 0x2028 || n == 0x2029 || n == 0x202F || n == 0x205F || n == 0x3000
  }

  /** The line boundaries of `str.splitlines()` ("\r\n" counts as one of them). */
  predicate IsLineBreak(c: char) {
    var n := c as int;
    || 0x0A <= n <= 0x0D
    || 0x1C <= n <= 0x1E
    || n == 0x85 || n == 0x2028 || n == 0x2029
  }

  predicate IsSlash(c: char) { c == '/' }

  predicate AllSpace(s: string) { forall i | 0 <= i < |s| :: IsSpace(s[i]) }

  predicate NoSpace(s: string) { forall i | 0 <= i < |s| :: !IsSpace(s[i]) }

  predicate NoLineBreak(s: string) { forall i | 0 <= i < |s| :: !IsLineBreak(s[i]) }

  /** A token of `str.split()`: non-empty and free of whitespace. */
  predicate IsWord(s: string) { |s| > 0 && NoSpace(s) }

  /** Neither starts nor ends with whitespace. */
  predicate Trimmed(s: string) { s == [] || (!IsSpace(s[0]) && !IsSpace(s[|s| - 1])) }

  /** Length of the longest prefix of `s` holding no character that satisfies `stop`. */
  function Span(s: string, stop: char -> bool): (n: nat)
    ensures n <= |s|
    ensures forall i | 0 <= i < n :: !stop(s[i])
    ensures n < |s| ==> stop(s[n])
  {
    if s == [] || stop(s[0]) then 0 else 1 + Span(s[1..], stop)
  }

  lemma {:induction false} SpanAt(a: string, c: char, b: string, stop: char -> bool)
    requires forall i | 0 <= i < |a| :: !stop(a[i])
    requires stop(c)
    ensures Span(a + [c] + b, stop) == |a|
  {
    if a != [] {
      assert (a + [c] + b)[1..] == a[1..] + [c] + b;
      SpanAt(a[1..], c, b, stop);
    }
  }

  // ---------------------------------------------------------------- strip()

  function LStrip(s: string): string {
    if s != [] && IsSpace(s[0]) then LStrip(s[1..]) else s
  }

  function RStrip(s: string): string {
    if s != [] && IsSpace(s[|s| - 1]) then RStrip(s[..|s| - 1]) else s
  }

  /** `s.strip()`: removes the leading and the trailing whitespace. */
  function Strip(s: string): (r: string)
    ensures |r| <= |s| && Trimmed(r)
  {
    var l := LStrip(s);
    LStripSpec(s);
    RStripSpec(l);
    assert RStrip(l) != [] ==> RStrip(l)[0] == l[0];
    RStrip(l)
  }

  lemma {:induction false} LStripSpec(s: string)
    ensures var r := LStrip(s);
      && |r| <= |s| && r == s[|s| - |r|..]
      && AllSpace(s[..|s| - |r|])
      && (r == [] || !IsSpace(r[0]))
  {
    if s != [] && IsSpace(s[0]) {
      LStripSpec(s[1..]);
      var r := LStrip(s);
      assert s[..|s| - |r|] == [s[0]] + s[1..][..|s| - 1 - |r|];
    }
  }

  lemma {:induction false} RStripSpec(s: string)
    ensures var r := RStrip(s);
      && |r| <= |s| && r == s[..|r|]
      && AllSpace(s[|r|..])
      && (r == [] || !IsSpace(r[|r| - 1]))
  {
    if s != [] && IsSpace(s[|s| - 1]) {
      RStripSpec(s[..|s| - 1]);
      var r := RStrip(s);
      assert s[|r|..] == s[..|s| - 1][|r|..] + [s[|s| - 1]];
    }
  }

  /** `strip()` leaves nothing exactly of all-whitespace text, and adds no line break. */
  lemma StripSpec(s: string)
    ensures Strip(s) == [] <==> AllSpace(s)
    ensures NoLineBreak(s) ==> NoLineBreak(Strip(s))
  {
    var l := LStrip(s);
    var r := RStrip(l);
    LStripSpec(s);
    RStripSpec(l);
    assert r == s[|s| - |l|..][..|r|];
    assert r != [] ==> r[0] == l[0];
    if AllSpace(s) {
      assert l == [];
    }
  }

  /** `strip()` removes exactly the whitespace around a trimmed core, and nothing else. */
  lemma {:induction false} StripAround(a: string, x: string, b: string)
    requires AllSpace(a) && AllSpace(b) && Trimmed(x) && x != []
    ensures Strip(a + x + b) == x
  {
    LStripPrefix(a, x + b);
    assert a + x + b == a + (x + b);
    RStripSuffix(x, b);
  }


  lemma {:induction false} LStripPrefix(a: string, t: string)
    requires AllSpace(a) && (t == [] || !IsSpace(t[0]))
    ensures LStrip(a + t) == t
  {
    if a != [] {
      assert (a + t)[1..] == a[1..] + t;
      LStripPrefix(a[1..], t);
    }
  }

  lemma {:induction false} RStripSuffix(x: string, b: string)
    requires AllSpace(b) && (x == [] || !IsSpace(x[|x| - 1]))
    ensures RStrip(x + b) == x
    decreases |b|
  {
    if b != [] {
      assert (x + b)[..|x + b| - 1] == x + b[..|b| - 1];
      RStripSuffix(x, b[..|b| - 1]);
    }
  }

  // ---------------------------------------------------------------- split(sep)

  function Count(s: string, c: char): nat {
    if s == [] then 0 else (if s[0] == c then 1 else 0) + Count(s[1..], c)
  }

  /** `s.split(sep)` for a one-character separator: one more field than separators. */
  function SplitOn(s: string, sep: char): (fields: seq<string>)
    ensures |fields| == Count(s, sep) + 1
    ensures forall i | 0 <= i < |fields| :: sep !in fields[i]
    ensures NoLineBreak(s) ==> forall i | 0 <= i < |fields| :: NoLineBreak(fields[i])
  {
    if s == [] then [""]
    else
      var rest := SplitOn(s[1..], sep);
      if s[0] == sep then [""] + rest else [[s[0]] + rest[0]] + rest[1..]
  }

  /** `sep.join(fields)`. */
  function Join(fields: seq<string>, sep: char): string
    requires |fields| > 0
  {
    if |fields| == 1 then fields[0] else fields[0] + [sep] + Join(fields[1..], sep)
  }

  lemma {:induction false} JoinSplit(s: string, sep: char)
    ensures Join(SplitOn(s, sep), sep) == s
  {
    if s != [] {
      var rest := SplitOn(s[1..], sep);
      JoinSplit(s[1..], sep);
      if s[0] == sep {
        assert SplitOn(s, sep)[1..] == rest;
      } else if |rest| == 1 {
        assert s == [s[0]] + rest[0];
      } else {
        var fields := SplitOn(s, sep);
        assert fields[1..] == rest[1..];
        assert Join(rest, sep) == rest[0] + [sep] + Join(rest[1..], sep);
      }
    }
  }

  lemma {:induction false} SplitOnSepFree(a: string, sep: char)
    requires sep !in a
    ensures SplitOn(a, sep) == [a]
  {
    if a != [] {
      SplitOnSepFree(a[1..], sep);
      assert a[0] != sep;
      assert [a[0]] + a[1..] == a;
    }
  }

  lemma {:induction false} SplitOnFirst(a: string, sep: char, b: string)
    requires sep !in a
    ensures SplitOn(a + [sep] + b, sep) == [a] + SplitOn(b, sep)
  {
    if a == [] {
      assert ([sep] + b)[1..] == b;
    } else {
      assert (a + [sep] + b)[1..] == a[1..] + [sep] + b;
      SplitOnFirst(a[1..], sep, b);
      assert (a + [sep] + b)[0] == a[0] != sep;
      assert [a[0]] + a[1..] == a;
    }
  }

  lemma {:induction false} SplitJoin(fields: seq<string>, sep: char)
    requires |fields| > 0 && forall i | 0 <= i < |fields| :: sep !in fields[i]
    ensures SplitOn(Join(fields, sep), sep) == fields
  {
    if |fields| == 1 {
      SplitOnSepFree(fields[0], sep);
    } else {
      SplitJoin(fields[1..], sep);
      SplitOnFirst(fields[0], sep, Join(fields[1..], sep));
    }
  }

  // ---------------------------------------------------------------- split()

  /** `s.split()`: the maximal runs of non-whitespace, in order. */
  function Tokens(s: string): (ts: seq<string>)
    ensures |ts| <= |s|
    decreases |s|
  {
    if s == [] then []
    else if IsSpace(s[0]) then Tokens(s[1..])
    else
      var n := Span(s, IsSpace);
      [s[..n]] + Tokens(s[n..])
  }

  /** Every token is a word, and there are none exactly when the text is all whitespace. */
  lemma {:induction false} TokensSpec(s: string)
    ensures forall i | 0 <= i < |Tokens(s)| :: IsWord(Tokens(s)[i])
    ensures Tokens(s) == [] <==> AllSpace(s)
    decreases |s|
  {
    if s == [] {
    } else if IsSpace(s[0]) {
      TokensSpec(s[1..]);
      assert AllSpace(s) <==> AllSpace(s[1..]);
    } else {
      var n := Span(s, IsSpace);
      TokensSpec(s[n..]);
    }
  }

  lemma {:induction false} TokensOfWord(w: string)
    requires IsWord(w)
    ensures Tokens(w) == [w]
  {
    assert Span(w, IsSpace) == |w|;
    assert w[..|w|] == w;
    assert w[|w|..] == [];
  }

  /** A word followed by nothing but whitespace is the only token. */
  lemma TokensOfPaddedWord(w: string, b: string)
    requires IsWord(w) && AllSpace(b)
    ensures Tokens(w + b) == [w]
  {
    TokensOfWord(w);
    if b == [] {
      assert w + b == w;
    } else {
      assert w + b == w + [b[0]] + b[1..];
      assert AllSpace(b[1..]);
      TokensSplitAt(w, b[0], b[1..]);
      TokensSpec(b[1..]);
    }
  }

  /** A word followed by whitespace is the first token. */
  lemma TokensAfterWord(w: string, c: char, b: string)
    requires IsWord(w) && IsSpace(c)
    ensures Tokens(w + [c] + b) == [w] + Tokens(b)
  {
    TokensSplitAt(w, c, b);
    TokensOfWord(w);
  }

  /** Two words, each followed by whitespace, are the first two tokens. */
  lemma TokensAfterTwoWords(v: string, c: char, w: string, d: char, b: string)
    requires IsWord(v) && IsSpace(c) && IsWord(w) && IsSpace(d)
    ensures Tokens(v + [c] + (w + [d] + b)) == [v, w] + Tokens(b)
  {
    TokensAfterWord(w, d, b);
    TokensAfterWord(v, c, w + [d] + b);
  }

  /** Three words, each followed by whitespace, are the first three tokens. */
  lemma TokensAfterThreeWords(u: string, c: char, v: string, d: char, w: string, e: char, b: string)
    requires IsWord(u) && IsSpace(c) && IsWord(v) && IsSpace(d) && IsWord(w) && IsSpace(e)
    ensures Tokens(u + [c] + (v + [d] + (w + [e] + b))) == [u, v, w] + Tokens(b)
  {
    TokensAfterTwoWords(v, d, w, e, b);
    TokensAfterWord(u, c, v + [d] + (w + [e] + b));
  }

  /** A whitespace character separates the tokens on its two sides. */
  lemma {:induction false} TokensSplitAt(a: string, c: char, b: string)
    requires IsSpace(c)
    ensures Tokens(a + [c] + b) == Tokens(a) + Tokens(b)
    decreases |a|
  {
    var s := a + [c] + b;
    if a == [] {
      assert s[1..] == b;
    } else if IsSpace(a[0]) {
      assert s[1..] == a[1..] + [c] + b;
      TokensSplitAt(a[1..], c, b);
    } else {
      var n := Span(a, IsSpace);
      SpanExtend(a, [c] + b, IsSpace);
      assert s == a + ([c] + b);
      assert s[..n] == a[..n];
      assert s[n..] == a[n..] + [c] + b;
      TokensSplitAt(a[n..], c, b);
    }
  }

  /** Appending text that starts with a stop character does not lengthen the span. */
  lemma {:induction false} SpanExtend(a: string, t: string, stop: char -> bool)
    requires t != [] && stop(t[0])
    ensures Span(a + t, stop) == Span(a, stop)
  {
    if a == [] {
      assert a + t == t;
    } else {
      assert (a + t)[1..] == a[1..] + t;
      SpanExtend(a[1..], t, stop);
    }
  }

  // ---------------------------------------------------------------- splitlines()

  /** `s.splitlines()`: the lines without their terminators; no empty line after a final terminator. */
  function SplitLines(s: string): (lines: seq<string>)
    ensures forall i | 0 <= i < |lines| :: NoLineBreak(lines[i])
    decreases |s|
  {
    if s == [] then []
    else
      var n := Span(s, IsLineBreak);
      if n == |s| then [s]
      else
        var width := if s[n] == '\r' && n + 1 < |s| && s[n + 1] == '\n' then 2 else 1;
        [s[..n]] + SplitLines(s[n + width..])
  }

  /** The text of `lines`, each followed by "\n". */
  function JoinLines(lines: seq<string>): string {
    if lines == [] then "" else lines[0] + "\n" + JoinLines(lines[1..])
  }

  /** `splitlines()` undoes writing lines one per "\n"-terminated line. */
  lemma {:induction false} SplitJoinLines(lines: seq<string>)
    requires forall i | 0 <= i < |lines| :: NoLineBreak(lines[i])
    ensures SplitLines(JoinLines(lines)) == lines
  {
    if lines != [] {
      var l := lines[0];
      var rest := JoinLines(lines[1..]);
      var s := l + "\n" + rest;
      SpanAt(l, '\n', rest, IsLineBreak);
      assert s[|l| + 1..] == rest;
      assert s[..|l|] == l;
      SplitJoinLines(lines[1..]);
    }
  }

  // ---------------------------------------------------------------- replace, partition

  /** `s.replace(from, to)` for one-character `from` and `to`. */
  function Replace(s: string, from: char, to: char): (r: string)
    ensures |r| == |s|
    ensures forall i | 0 <= i < |s| :: r[i] == if s[i] == from then to else s[i]
  {
    if s == [] then [] else [if s[0] == from then to else s[0]] + Replace(s[1..], from, to)
  }

  /** `s.partition(sep)[2]`: what follows the first `sep`, or "" when there is none. */
  function AfterFirst(s: string, sep: char): (r: string)
    ensures sep !in s ==> r == ""
  {
    if s == [] then "" else if s[0] == sep then s[1..] else AfterFirst(s[1..], sep)
  }

  lemma {:induction false} AfterFirstAt(a: string, sep: char, b: string)
    requires sep !in a
    ensures AfterFirst(a + [sep] + b, sep) == b
  {
    if a == [] {
      assert ([sep] + b)[1..] == b;
    } else {
      assert (a + [sep] + b)[1..] == a[1..] + [sep] + b;
      AfterFirstAt(a[1..], sep, b);
    }
  }
}
