/**
 * The parts of Python's `str` that the filters rely on: the whitespace set used by
 * `strip()` and `split()`, `split('\n')`, `sep.join(parts)` and decimal formatting of a count.
 */
module Text {

  /** The characters for which Python's `str.isspace()` holds; `strip()` and `split()` use this set. */
  predicate IsSpace(c: char)
  {
    c == ' ' || ('\t' <= c <= '\r') || ('\U{1C}' <= c <= '\U{1F}')
    || c == '\U{85}' || c == '\U{A0}' || c == '\U{1680}' || ('\U{2000}' <= c <= '\U{200A}')
    || c == '\U{2028}' || c == '\U{2029}' || c == '\U{202F}' || c == '\U{205F}' || c == '\U{3000}'
  }

  predicate AllSpace(s: string)
  {
    forall k :: 0 <= k < |s| ==> IsSpace(s[k])
  }

  predicate NoSpace(s: string)
  {
    forall k :: 0 <= k < |s| ==> !IsSpace(s[k])
  }

  /** `x` occurs as a contiguous piece of `s`. */
  predicate IsInfix(x: string, s: string)
  {
    exists i, j :: 0 <= i <= j <= |s| && s[i..j] == x
  }

  predicate StartsWith(s: string, prefix: string)
  {
    |prefix| <= |s| && s[..|prefix|] == prefix
  }

  // ---------------------------------------------------------------- strip()

  /** The first index at or after `i` that does not hold whitespace (`|s|` if none). */
  function SkipSpace(s: string, i: nat): (j: nat)
    requires i <= |s|
    ensures i <= j <= |s|
    ensures forall k :: i <= k < j ==> IsSpace(s[k])
    ensures j == |s| || !IsSpace(s[j])
    decreases |s| - i
  {
    if i == |s| || !IsSpace(s[i]) then i else SkipSpace(s, i + 1)
  }

  /** Scanning back from `j` to no further than `lo`: the end of `s[lo..j]` without its trailing whitespace. */
  function SkipSpaceBack(s: string, lo: nat, j: nat): (e: nat)
    requires lo <= j <= |s|
    ensures lo <= e <= j
    ensures forall k :: e <= k < j ==> IsSpace(s[k])
    ensures e == lo || !IsSpace(s[e - 1])
  {
    if j == lo || !IsSpace(s[j - 1]) then j else SkipSpaceBack(s, lo, j - 1)
  }

  /** `s.strip()`: `s` without its leading and trailing whitespace. */
  function Strip(s: string): (r: string)
    ensures |r| <= |s|
    ensures r == [] || (!IsSpace(r[0]) && !IsSpace(r[|r| - 1]))
  {
    var i := SkipSpace(s, 0);
    s[i..SkipSpaceBack(s, i, |s|)]
  }

  /** `Strip` splits its input into whitespace, the result, and whitespace. */
  lemma StripDecompose(s: string) returns (a: string, b: string)
    ensures s == a + Strip(s) + b
    ensures AllSpace(a) && AllSpace(b)
  {
    var i := SkipSpace(s, 0);
    var e := SkipSpaceBack(s, i, |s|);
    a, b := s[..i], s[e..];
    assert s == s[..i] + s[i..e] + s[e..];
  }

  /**
   * `strip()` is characterised by its result: whatever is surrounded by whitespace and
   * neither begins nor ends with whitespace is exactly what `Strip` returns.
   */
  lemma StripOfPadded(a: string, m: string, b: string)
    requires AllSpace(a) && AllSpace(b)
    requires m == [] || (!IsSpace(m[0]) && !IsSpace(m[|m| - 1]))
    ensures Strip(a + m + b) == m
  {
    var s := a + m + b;
    var i := SkipSpace(s, 0);
    var e := SkipSpaceBack(s, i, |s|);
    if m == [] {
      assert forall k :: 0 <= k < |s| ==> IsSpace(s[k]) by {
        forall k | 0 <= k < |s| ensures IsSpace(s[k]) {
          if k < |a| { assert s[k] == a[k]; } else { assert s[k] == b[k - |a|]; }
        }
      }
      assert i == |s|;
    } else {
      assert s[|a|] == m[0];
      assert forall k :: 0 <= k < |a| ==> IsSpace(s[k]) by {
        forall k | 0 <= k < |a| ensures IsSpace(s[k]) { assert s[k] == a[k]; }
      }
      assert i == |a|;
      assert s[|a| + |m| - 1] == m[|m| - 1];
      assert forall k :: |a| + |m| <= k < |s| ==> IsSpace(s[k]) by {
        forall k | |a| + |m| <= k < |s| ensures IsSpace(s[k]) { assert s[k] == b[k - |a| - |m|]; }
      }
      assert e == |a| + |m|;
      assert s[i..e] == m;
    }
  }

  /** `strip()` is idempotent. */
  lemma StripIdempotent(s: string)
    ensures Strip(Strip(s)) == Strip(s)
  {
    var m := Strip(s);
    StripOfPadded([], m, []);
    assert [] + m + [] == m;
  }

  /** A stripped line never holds a character its input did not hold. */
  lemma StripKeepsOut(s: string, c: char)
    requires c !in s
    ensures c !in Strip(s)
  {
    var a, b := StripDecompose(s);
    forall k | 0 <= k < |Strip(s)| ensures Strip(s)[k] != c {
      assert Strip(s)[k] == s[|a| + k];
    }
  }

  // ---------------------------------------------------------------- split('\n') and join

  /** `sep.join(parts)`. */
  function Join(parts: seq<string>, sep: string): string
  {
    if |parts| == 0 then []
    else if |parts| == 1 then parts[0]
    else parts[0] + sep + Join(parts[1..], sep)
  }

  /** `s.split('\n')`: the pieces between line breaks, at least one, none holding a break. */
  function SplitLines(s: string): (r: seq<string>)
    ensures |r| >= 1
    ensures forall i :: 0 <= i < |r| ==> '\n' !in r[i]
    ensures Join(r, "\n") == s
  {
    if s == [] then [[]]
    else
      var rest := SplitLines(s[1..]);
      if s[0] == '\n' then
        assert s == "\n" + s[1..];
        [[]] + rest
      else
        var r := [[s[0]] + rest[0]] + rest[1..];
        assert |rest| > 1 ==> Join(rest, "\n") == rest[0] + "\n" + Join(rest[1..], "\n");
        assert r[1..] == rest[1..];
        r
  }

  /** A line break in the text separates the pieces before it from those after it. */
  lemma {:induction false} SplitLinesAtBreak(a: string, b: string)
    ensures SplitLines(a + "\n" + b) == SplitLines(a) + SplitLines(b)
  {
    if a == [] {
      assert a + "\n" + b == "\n" + b;
      assert ("\n" + b)[1..] == b;
    } else {
      var s := a + "\n" + b;
      assert s[0] == a[0];
      assert s[1..] == a[1..] + "\n" + b;
      SplitLinesAtBreak(a[1..], b);
    }
  }

  /** Splitting undoes joining, for pieces without line breaks. */
  lemma {:induction false} SplitLinesOfJoin(lines: seq<string>)
    requires |lines| >= 1
    requires forall i :: 0 <= i < |lines| ==> '\n' !in lines[i]
    ensures SplitLines(Join(lines, "\n")) == lines
  {
    if |lines| == 1 {
      SplitLinesWithoutBreak(lines[0]);
    } else {
      SplitLinesOfJoin(lines[1..]);
      SplitLinesAtBreak(lines[0], Join(lines[1..], "\n"));
      SplitLinesWithoutBreak(lines[0]);
      assert lines == [lines[0]] + lines[1..];
    }
  }

  lemma {:induction false} SplitLinesWithoutBreak(s: string)
    requires '\n' !in s
    ensures SplitLines(s) == [s]
  {
    if s != [] {
      assert '\n' !in s[1..] by {
        forall k | 0 <= k < |s[1..]| ensures s[1..][k] != '\n' {
          assert s[1..][k] == s[k + 1];
        }
      }
      SplitLinesWithoutBreak(s[1..]);
      assert s == [s[0]] + s[1..];
    }
  }

  /** Every piece of a join is a contiguous piece of the joined text. */
  lemma {:induction false} JoinedPartIsInfix(parts: seq<string>, sep: string, k: nat)
    requires k < |parts|
    ensures IsInfix(parts[k], Join(parts, sep))
  {
    var s := Join(parts, sep);
    if |parts| == 1 {
      assert s[0..|s|] == parts[k];
    } else if k == 0 {
      assert s[0..|parts[0]|] == parts[0];
    } else {
      JoinedPartIsInfix(parts[1..], sep, k - 1);
      var t := Join(parts[1..], sep);
      var i, j :| 0 <= i <= j <= |t| && t[i..j] == parts[k];
      var off := |parts[0] + sep|;
      assert s == parts[0] + sep + t;
      assert s[off + i..off + j] == t[i..j];
    }
  }

  lemma InfixTransitive(x: string, y: string, z: string)
    requires IsInfix(x, y) && IsInfix(y, z)
    ensures IsInfix(x, z)
  {
    var i, j :| 0 <= i <= j <= |y| && y[i..j] == x;
    var p, q :| 0 <= p <= q <= |z| && z[p..q] == y;
    assert z[p + i..p + j] == x by {
      forall k | 0 <= k < j - i ensures z[p + i..p + j][k] == x[k] {
        assert x[k] == y[i + k] == z[p + i + k];
      }
    }
  }

  /** Each line of a text is a contiguous piece of that text. */
  lemma LineIsInfix(s: string, k: nat)
    requires k < |SplitLines(s)|
    ensures IsInfix(SplitLines(s)[k], s)
  {
    JoinedPartIsInfix(SplitLines(s), "\n", k);
  }

  /** Joining pieces of a text with line breaks yields only lines that are pieces of that text. */
  lemma {:induction false} JoinedLinesAreInfixes(parts: seq<string>, text: string, k: nat)
    requires forall i :: 0 <= i < |parts| ==> IsInfix(parts[i], text)
    requires k < |SplitLines(Join(parts, "\n"))|
    ensures IsInfix(SplitLines(Join(parts, "\n"))[k], text)
    decreases |parts|
  {
    var lines := SplitLines(Join(parts, "\n"));
    if |parts| == 0 {
      assert lines == [[]];
      assert text[0..0] == lines[k];
    } else if |parts| == 1 {
      LineIsInfix(parts[0], k);
      InfixTransitive(lines[k], parts[0], text);
    } else {
      var rest := Join(parts[1..], "\n");
      SplitLinesAtBreak(parts[0], rest);
      var n := |SplitLines(parts[0])|;
      if k < n {
        LineIsInfix(parts[0], k);
        InfixTransitive(lines[k], parts[0], text);
      } else {
        JoinedLinesAreInfixes(parts[1..], text, k - n);
      }
    }
  }

  // ---------------------------------------------------------------- split()

  /** The first index at or after `i` that holds whitespace (`|s|` if none). */
  function SkipWord(s: string, i: nat): (j: nat)
    requires i <= |s|
    ensures i <= j <= |s|
    ensures forall k :: i <= k < j ==> !IsSpace(s[k])
    ensures j == |s| || IsSpace(s[j])
    decreases |s| - i
  {
    if i == |s| || IsSpace(s[i]) then i else SkipWord(s, i + 1)
  }

  /** `s[i..].split()`: the maximal runs of non-whitespace characters, in order. */
  function WordsFrom(s: string, i: nat): (ws: seq<string>)
    requires i <= |s|
    ensures forall n :: 0 <= n < |ws| ==> ws[n] != [] && NoSpace(ws[n])
    decreases |s| - i
  {
    var a := SkipSpace(s, i);
    if a == |s| then []
    else
      var b := SkipWord(s, a);
      [s[a..b]] + WordsFrom(s, b)
  }

  /** `s.split()`. */
  function Words(s: string): seq<string>
  {
    WordsFrom(s, 0)
  }

  /** The command keyword of a configuration line: its first run of non-whitespace characters. */
  function FirstToken(s: string): string
  {
    var a := SkipSpace(s, 0);
    s[a..SkipWord(s, a)]
  }

  /** `s.split()[0] if s.split() else ""`. */
  function SplitFirst(s: string): string
  {
    if |Words(s)| > 0 then Words(s)[0] else ""
  }

  /** `FirstToken` is what `s.split()[0] if s.split() else ""` computes. */
  lemma FirstTokenIsFirstWord(s: string)
    ensures FirstToken(s) == SplitFirst(s)
  {
  }

  /**
   * The first token of a line made of whitespace, a word and anything that starts with
   * whitespace is that word.
   */
  lemma FirstTokenOf(a: string, w: string, b: string)
    requires AllSpace(a) && w != [] && NoSpace(w)
    requires b == [] || IsSpace(b[0])
    ensures FirstToken(a + w + b) == w
  {
    var s := a + w + b;
    assert forall k :: 0 <= k < |a| ==> IsSpace(s[k]) by {
      forall k | 0 <= k < |a| ensures IsSpace(s[k]) { assert s[k] == a[k]; }
    }
    assert s[|a|] == w[0];
    assert SkipSpace(s, 0) == |a|;
    assert forall k :: |a| <= k < |a| + |w| ==> !IsSpace(s[k]) by {
      forall k | |a| <= k < |a| + |w| ensures !IsSpace(s[k]) { assert s[k] == w[k - |a|]; }
    }
    assert |a| + |w| < |s| ==> s[|a| + |w|] == b[0];
    assert SkipWord(s, |a|) == |a| + |w|;
    assert s[|a|..|a| + |w|] == w;
  }

  /** A line has the empty token exactly when it is blank (empty or all whitespace). */
  lemma FirstTokenBlank(s: string)
    ensures FirstToken(s) == "" <==> AllSpace(s)
  {
    var a := SkipSpace(s, 0);
    if a < |s| {
      assert s[a..SkipWord(s, a)][0] == s[a];
    }
  }

  /** `s[i..].split()` is empty exactly when `s[i..]` is blank. */
  lemma WordsFromBlank(s: string, i: nat)
    requires i <= |s|
    ensures WordsFrom(s, i) == [] <==> forall k :: i <= k < |s| ==> IsSpace(s[k])
  {
  }

  /**
   * When `s[i..]` is whitespace up to `p`, then the word `s[p..q]`, then whitespace or
   * the end, its `split()` is that word followed by the words of `s[q..]`. With
   * `WordsFromBlank` this fixes `split()` on every text.
   */
  lemma WordsFromAt(s: string, i: nat, p: nat, q: nat)
    requires i <= p < q <= |s|
    requires forall k :: i <= k < p ==> IsSpace(s[k])
    requires forall k :: p <= k < q ==> !IsSpace(s[k])
    requires q == |s| || IsSpace(s[q])
    ensures WordsFrom(s, i) == [s[p..q]] + WordsFrom(s, q)
  {
    SkipSpaceTo(s, i, p);
    SkipWordTo(s, p, q);
  }

  lemma {:induction false} SkipSpaceTo(s: string, i: nat, p: nat)
    requires i <= p <= |s|
    requires forall k :: i <= k < p ==> IsSpace(s[k])
    requires p == |s| || !IsSpace(s[p])
    ensures SkipSpace(s, i) == p
    decreases p - i
  {
    if i < p {
      SkipSpaceTo(s, i + 1, p);
    }
  }

  lemma {:induction false} SkipWordTo(s: string, p: nat, q: nat)
    requires p <= q <= |s|
    requires forall k :: p <= k < q ==> !IsSpace(s[k])
    requires q == |s| || IsSpace(s[q])
    ensures SkipWord(s, p) == q
    decreases q - p
  {
    if p < q {
      SkipWordTo(s, p + 1, q);
    }
  }

  // ---------------------------------------------------------------- decimal counts

  function DigitChar(d: nat): (c: char)
    requires d < 10
    ensures '0' <= c <= '9'
  {
    (48 + d) as char
  }

  predicate AllDigits(s: string)
  {
    forall k :: 0 <= k < |s| ==> '0' <= s[k] <= '9'
  }

  /** The decimal numeral of `n`, as an f-string renders an `int`. */
  function NatToString(n: nat): (s: string)
    ensures |s| >= 1 && AllDigits(s)
    ensures |s| > 1 ==> s[0] != '0'
  {
    if n < 10 then [DigitChar(n)] else NatToString(n / 10) + [DigitChar(n % 10)]
  }

  /** The number a numeral denotes. */
  function DecimalValue(s: string): nat
    requires AllDigits(s)
  {
    if s == [] then 0 else 10 * DecimalValue(s[..|s| - 1]) + (s[|s| - 1] as int - 48)
  }

  lemma {:induction false} DecimalRoundTrip(n: nat)
    ensures DecimalValue(NatToString(n)) == n
  {
    if n >= 10 {
      DecimalRoundTrip(n / 10);
      var s := NatToString(n);
      assert s[..|s| - 1] == NatToString(n / 10);
    }
  }
}
