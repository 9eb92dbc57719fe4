/** Python string operations the scraper relies on: `startswith`, `in`,
    `strip`, `rstrip`, `split("\n")`, `"\n".join` and `str(n)`. */
module TextOps {
  import opened Chars

  predicate StartsWith(s: string, prefix: string)
  {
    |prefix| <= |s| && s[..|prefix|] == prefix
  }

  /** Python's `needle in s` for strings. */
  predicate Contains(s: string, needle: string)
  {
    exists i :: 0 <= i <= |s| && OccursAt(s, i, needle)
  }

  predicate OccursAt(s: string, i: nat, needle: string)
  {
    i + |needle| <= |s| && s[i..i + |needle|] == needle
  }

  predicate AllSpace(s: string)
  {
    forall i :: 0 <= i < |s| ==> IsSpace(s[i])
  }

  /** Neither end of `s` is whitespace: what `strip()` leaves. */
  predicate Trimmed(s: string)
  {
    s == [] || (!IsSpace(s[0]) && !IsSpace(s[|s| - 1]))
  }

  predicate NoTrailingSpace(s: string)
  {
    s == [] || !IsSpace(s[|s| - 1])
  }

  function LeadingSpaces(s: string): (n: nat)
    ensures n <= |s|
    ensures forall i :: 0 <= i < n ==> IsSpace(s[i])
    ensures n < |s| ==> !IsSpace(s[n])
  {
    if s == [] || !IsSpace(s[0]) then 0 else 1 + LeadingSpaces(s[1..])
  }

  /** `LeadingSpaces` is pinned down by where the whitespace stops. */
  lemma LeadingSpacesIs(x: string, k: nat)
    requires k <= |x| && (forall i :: 0 <= i < k ==> IsSpace(x[i]))
    requires k < |x| ==> !IsSpace(x[k])
    ensures LeadingSpaces(x) == k
  {
  }

  function TrailingSpaces(s: string): (n: nat)
    ensures n <= |s|
    ensures forall i :: |s| - n <= i < |s| ==> IsSpace(s[i])
    ensures n < |s| ==> !IsSpace(s[|s| - n - 1])
  {
    if s == [] || !IsSpace(s[|s| - 1]) then 0 else 1 + TrailingSpaces(s[..|s| - 1])
  }

  lemma TrailingSpacesIs(x: string, k: nat)
    requires k <= |x| && (forall i :: |x| - k <= i < |x| ==> IsSpace(x[i]))
    requires k < |x| ==> !IsSpace(x[|x| - k - 1])
    ensures TrailingSpaces(x) == k
  {
  }

  /** `s.rstrip()`: the longest prefix of `s` that does not end in whitespace;
      only whitespace is cut off. */
  function RStrip(s: string): (r: string)
    ensures r <= s
    ensures NoTrailingSpace(r)
    ensures AllSpace(s[|r|..])
  {
    s[..|s| - TrailingSpaces(s)]
  }

  /** `s.strip()`: the slice of `s` between its leading and its trailing
      whitespace. */
  function Strip(s: string): (r: string)
    ensures Trimmed(r)
    ensures |r| <= |s|
  {
    var t := s[LeadingSpaces(s)..];
    assert t == [] || !IsSpace(t[0]);
    t[..|t| - TrailingSpaces(t)]
  }

  /** Where the stripped text sits: after the leading whitespace, with only
      whitespace after it. */
  lemma StripSlice(s: string)
    ensures LeadingSpaces(s) + |Strip(s)| <= |s|
    ensures Strip(s) == s[LeadingSpaces(s)..LeadingSpaces(s) + |Strip(s)|]
    ensures AllSpace(s[..LeadingSpaces(s)]) && AllSpace(s[LeadingSpaces(s) + |Strip(s)|..])
  {
    StripSliceSits(s);
    StripSliceSpaces(s);
  }

  lemma StripSliceSits(s: string)
    ensures LeadingSpaces(s) + |Strip(s)| <= |s|
    ensures Strip(s) == s[LeadingSpaces(s)..LeadingSpaces(s) + |Strip(s)|]
  {
    var n := LeadingSpaces(s);
    SuffixSlices(s, n, |Strip(s)|);
  }

  lemma StripSliceSpaces(s: string)
    ensures LeadingSpaces(s) + |Strip(s)| <= |s|
    ensures AllSpace(s[..LeadingSpaces(s)]) && AllSpace(s[LeadingSpaces(s) + |Strip(s)|..])
  {
    LeadingAllSpace(s);
    TrailingAllSpace(s);
  }

  lemma LeadingAllSpace(s: string)
    ensures AllSpace(s[..LeadingSpaces(s)])
  {
    var n := LeadingSpaces(s);
    assert forall i :: 0 <= i < n ==> s[..n][i] == s[i];
  }

  lemma TrailingAllSpace(s: string)
    ensures LeadingSpaces(s) + |Strip(s)| <= |s|
    ensures AllSpace(s[LeadingSpaces(s) + |Strip(s)|..])
  {
    var n := LeadingSpaces(s);
    var t := s[n..];
    var r := Strip(s);
    assert r == RStrip(t);
    assert AllSpace(t[|r|..]);
    SuffixSlices(s, n, |r|);
  }

  lemma SuffixSlices<T>(s: seq<T>, n: nat, m: nat)
    requires n + m <= |s|
    ensures s[n..][..m] == s[n..n + m] && s[n..][m..] == s[n + m..]
  {
  }

  lemma StripTrimmed(s: string)
    requires Trimmed(s)
    ensures Strip(s) == s
  {
  }

  /** `s.split("\n")`: always at least one piece. */
  function SplitLines(s: string): (r: seq<string>)
    ensures |r| >= 1
  {
    if s == [] then [[]]
    else
      var rest := SplitLines(s[1..]);
      if s[0] == '\n' then [[]] + rest
      else [[s[0]] + rest[0]] + rest[1..]
  }

  /** `"\n".join(lines)`. */
  function JoinLines(lines: seq<string>): string
  {
    if |lines| == 0 then []
    else if |lines| == 1 then lines[0]
    else lines[0] + "\n" + JoinLines(lines[1..])
  }

  lemma {:induction false} JoinSplit(s: string)
    ensures JoinLines(SplitLines(s)) == s
  {
    if s != [] {
      JoinSplit(s[1..]);
      var rest := SplitLines(s[1..]);
      if s[0] == '\n' {
        JoinBreakHead(rest);
        assert s == "\n" + s[1..];
      } else {
        JoinCharHead(s[0], rest);
        assert s == [s[0]] + s[1..];
      }
    }
  }

  /** Joining after an empty first line puts a line break in front. */
  lemma JoinBreakHead(lines: seq<string>)
    requires |lines| >= 1
    ensures JoinLines([[]] + lines) == "\n" + JoinLines(lines)
  {
    assert ([[]] + lines)[1..] == lines;
  }

  /** Joining after extending the first line by `c` puts `c` in front. */
  lemma JoinCharHead(c: char, lines: seq<string>)
    requires |lines| >= 1
    ensures JoinLines([[c] + lines[0]] + lines[1..]) == [c] + JoinLines(lines)
  {
    var ls := [[c] + lines[0]] + lines[1..];
    assert ls[1..] == lines[1..];
    if |lines| > 1 {
      Assoc([c], lines[0], "\n" + JoinLines(lines[1..]));
      Assoc(lines[0], "\n", JoinLines(lines[1..]));
      Assoc([c] + lines[0], "\n", JoinLines(lines[1..]));
    }
  }

  lemma {:induction false} SplitJoin(lines: seq<string>)
    requires |lines| >= 1
    requires forall i :: 0 <= i < |lines| ==> '\n' !in lines[i]
    ensures SplitLines(JoinLines(lines)) == lines
  {
    if |lines| == 1 {
      SplitNoBreak(lines[0]);
    } else {
      SplitJoin(lines[1..]);
      SplitAround(lines[0], JoinLines(lines[1..]));
      SplitNoBreak(lines[0]);
      assert lines == [lines[0]] + lines[1..];
    }
  }

  lemma {:induction false} SplitNoBreak(s: string)
    requires '\n' !in s
    ensures SplitLines(s) == [s]
  {
    if s != [] {
      SplitNoBreak(s[1..]);
      assert s == [s[0]] + s[1..];
    }
  }

  /** No piece of `s.split("\n")` holds a line break. */
  lemma {:induction false} SplitLinesNoBreak(s: string)
    ensures forall i :: 0 <= i < |SplitLines(s)| ==> '\n' !in SplitLines(s)[i]
  {
    if s != [] {
      SplitLinesNoBreak(s[1..]);
      var rest := SplitLines(s[1..]);
      if s[0] != '\n' {
        assert '\n' !in [s[0]] + rest[0];
      }
    }
  }

  /** Splitting at a line break splits the piece lists. */
  lemma {:induction false} SplitAround(a: string, b: string)
    ensures SplitLines(a + "\n" + b) == SplitLines(a) + SplitLines(b)
  {
    if a == [] {
      assert a + "\n" + b == ['\n'] + b;
      SplitCons('\n', b);
      assert SplitLines(a) == [[]];
    } else {
      SplitAround(a[1..], b);
      SplitAroundStep(a, b);
    }
  }

  lemma SplitAroundStep(a: string, b: string)
    requires a != []
    requires SplitLines(a[1..] + "\n" + b) == SplitLines(a[1..]) + SplitLines(b)
    ensures SplitLines(a + "\n" + b) == SplitLines(a) + SplitLines(b)
  {
    var t := a[1..] + "\n" + b;
    var ra, rb := SplitLines(a[1..]), SplitLines(b);
    ConsBreak(a, b);
    SplitCons(a[0], t);
    SplitCons(a[0], a[1..]);
    if a[0] == '\n' {
      Assoc([[]], ra, rb);
    } else {
      AppendTail(ra, rb);
      Assoc([[a[0]] + ra[0]], ra[1..], rb);
    }
  }

  lemma ConsBreak(a: string, b: string)
    requires a != []
    ensures a + "\n" + b == [a[0]] + (a[1..] + "\n" + b)
    ensures a == [a[0]] + a[1..]
  {
  }

  lemma Assoc<T>(x: seq<T>, y: seq<T>, z: seq<T>)
    ensures x + (y + z) == (x + y) + z
  {
  }

  lemma DropPrefix<T>(x: seq<T>, y: seq<T>)
    ensures (x + y)[|x|..] == y
  {
  }

  lemma Recons<T>(x: seq<T>, y: seq<T>)
    requires x != []
    ensures [x[0]] + (x[1..] + y) == x + y
  {
    assert x == [x[0]] + x[1..];
  }

  lemma AppendTail<T>(x: seq<T>, y: seq<T>)
    requires x != []
    ensures (x + y)[0] == x[0] && (x + y)[1..] == x[1..] + y
  {
  }

  lemma TakeDrop<T>(x: seq<T>, n: nat)
    requires n <= |x|
    ensures x == x[..n] + x[n..]
  {
  }

  lemma PrefixIndex<T>(x: seq<T>, y: seq<T>, n: nat)
    requires x <= y && n < |x|
    ensures n < |y| && y[n] == x[n]
  {
  }

  lemma AppendDrop<T>(x: seq<T>, y: seq<T>, n: nat)
    requires n <= |x|
    ensures (x + y)[n..] == x[n..] + y
  {
  }

  /** One step of `SplitLines`. */
  lemma SplitCons(c: char, t: string)
    ensures SplitLines([c] + t) ==
      if c == '\n' then [[]] + SplitLines(t)
      else [[c] + SplitLines(t)[0]] + SplitLines(t)[1..]
  {
    assert ([c] + t)[1..] == t;
  }

  /** A line standing alone between two line breaks is one of the pieces. */
  lemma LineStandingAlone(a: string, line: string, b: string)
    requires '\n' !in line
    ensures line in SplitLines(a + "\n" + line + "\n" + b)
  {
    SplitAround(a, line + "\n" + b);
    SplitAround(line, b);
    SplitNoBreak(line);
    assert a + "\n" + line + "\n" + b == a + "\n" + (line + "\n" + b);
    assert SplitLines(a + "\n" + line + "\n" + b)[|SplitLines(a)|] == line;
  }

  function DigitChar(d: nat): (c: char)
    requires d < 10
    ensures IsDigit(c)
  {
    ('0' as int + d) as char
  }

  /** `str(n)` for a natural number. */
  function DecimalString(n: nat): (r: string)
    ensures |r| >= 1
    ensures forall i :: 0 <= i < |r| ==> IsDigit(r[i])
  {
    if n < 10 then [DigitChar(n)] else DecimalString(n / 10) + [DigitChar(n % 10)]
  }

  function DecimalValue(s: string): nat
    requires forall i :: 0 <= i < |s| ==> IsDigit(s[i])
  {
    if s == [] then 0
    else
      assert IsDigit(s[|s| - 1]);
      10 * DecimalValue(s[..|s| - 1]) + (s[|s| - 1] as int - '0' as int)
  }

  function Pow10(k: nat): (p: nat)
    ensures p >= 1
  {
    if k == 0 then 1 else 10 * Pow10(k - 1)
  }

  /** Reading the digits back gives the number. */
  lemma {:induction false} DecimalRoundTrip(n: nat)
    ensures DecimalValue(DecimalString(n)) == n
  {
    if n >= 10 {
      DecimalRoundTrip(n / 10);
      var r := DecimalString(n);
      assert r[..|r| - 1] == DecimalString(n / 10);
    }
  }

  /** A number below 10^k has at most k digits. */
  lemma {:induction false} DecimalLength(n: nat, k: nat)
    requires 1 <= k && n < Pow10(k)
    ensures |DecimalString(n)| <= k
  {
    if n >= 10 {
      assert k >= 2;
      DecimalLength(n / 10, k - 1);
    }
  }
}
