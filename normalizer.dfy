/** `normalize_text`: drop carriage returns, heal words hyphenated across a
    line break, shrink every run of three or more line breaks to a blank line,
    and trim the ends.  `isWord` is the class `\w`. */
module Normalizer {
  import opened Chars
  import opened TextOps

  /** `txt.replace("\r", "")`. */
  function RemoveCarriageReturns(s: string): (r: string)
    ensures forall c :: c in r <==> c in s && c != '\r'
  {
    if s == [] then []
    else (if s[0] == '\r' then [] else [s[0]]) + RemoveCarriageReturns(s[1..])
  }

  /** Dropping carriage returns distributes over concatenation, so the other
      characters keep their order and their number. */
  lemma {:induction false} RemoveCarriageReturnsAppend(a: string, b: string)
    ensures RemoveCarriageReturns(a + b) == RemoveCarriageReturns(a) + RemoveCarriageReturns(b)
  {
    if a == [] {
      assert a + b == b;
    } else {
      var head := if a[0] == '\r' then [] else [a[0]];
      assert (a + b)[0] == a[0] && (a + b)[1..] == a[1..] + b;
      RemoveCarriageReturnsAppend(a[1..], b);
      Assoc(head, RemoveCarriageReturns(a[1..]), RemoveCarriageReturns(b));
    }
  }

  /** One character: a carriage return vanishes, anything else stays. */
  lemma RemoveCarriageReturnsOne(c: char)
    ensures RemoveCarriageReturns([c]) == if c == '\r' then [] else [c]
  {
    assert [c][1..] == [];
  }

  /** A match of `(\w)-\n(\w)` at the start of `s`. */
  predicate HealSite(s: string, isWord: char -> bool)
  {
    |s| >= 4 && isWord(s[0]) && s[1] == '-' && s[2] == '\n' && isWord(s[3])
  }

  /** `re.sub(r"(\w)-\n(\w)", r"\1\2", s)`: scanning left to right, each match
      loses its hyphen and line break, and scanning resumes after the match,
      so matches never overlap. */
  function Heal(s: string, isWord: char -> bool): (r: string)
    ensures |r| <= |s|
    ensures forall c :: c in r ==> c in s
  {
    if s == [] then []
    else if HealSite(s, isWord) then [s[0], s[3]] + Heal(s[4..], isWord)
    else [s[0]] + Heal(s[1..], isWord)
  }

  /** The number of line breaks `s` starts with. */
  function LeadingNewlines(s: string): (n: nat)
    ensures n <= |s|
    ensures forall i :: 0 <= i < n ==> s[i] == '\n'
    ensures n < |s| ==> s[n] != '\n'
  {
    if s == [] || s[0] != '\n' then 0 else 1 + LeadingNewlines(s[1..])
  }

  predicate NoTripleNewline(s: string)
  {
    forall i :: 0 <= i < |s| - 2 ==> !(s[i] == '\n' && s[i + 1] == '\n' && s[i + 2] == '\n')
  }

  /** `re.sub(r"\n{3,}", "\n\n", s)`. */
  function CollapseBlankRuns(s: string): (r: string)
    ensures NoTripleNewline(r)
    ensures LeadingNewlines(r) == if LeadingNewlines(s) >= 3 then 2 else LeadingNewlines(s)
    ensures forall c :: c in r <==> c in s
  {
    if s == [] then []
    else if LeadingNewlines(s) >= 3 then
      var rest := CollapseBlankRuns(s[LeadingNewlines(s)..]);
      assert LeadingNewlines(rest) == 0;
      NoTripleAfterPair(rest);
      InAfterRun(s, LeadingNewlines(s));
      InAfterPair(rest);
      "\n\n" + rest
    else
      var rest := CollapseBlankRuns(s[1..]);
      var r := [s[0]] + rest;
      assert r[1..] == rest;
      NoTripleCons(s[0], rest);
      InCons(s);
      InCons(r);
      r
  }

  lemma InCons(s: string)
    requires s != []
    ensures forall c :: c in s <==> c == s[0] || c in s[1..]
  {
    assert s == [s[0]] + s[1..];
  }

  /** The characters of a text that starts with `n` line breaks. */
  lemma InAfterRun(s: string, n: nat)
    requires 1 <= n <= |s| && forall i :: 0 <= i < n ==> s[i] == '\n'
    ensures forall c :: c in s <==> c == '\n' || c in s[n..]
  {
    assert s == s[..n] + s[n..];
    assert forall c :: c in s[..n] ==> c == '\n';
    assert s[0] == '\n';
  }

  lemma InAfterPair(rest: string)
    ensures forall c :: c in "\n\n" + rest <==> c == '\n' || c in rest
  {
    assert ("\n\n" + rest)[0] == '\n';
  }

  lemma NoTripleAfterPair(rest: string)
    requires NoTripleNewline(rest) && LeadingNewlines(rest) == 0
    ensures NoTripleNewline("\n\n" + rest)
  {
    var r := "\n\n" + rest;
    assert forall k :: 2 <= k < |r| ==> r[k] == rest[k - 2];
  }

  lemma NoTripleCons(c: char, rest: string)
    requires NoTripleNewline(rest) && (c == '\n' ==> LeadingNewlines(rest) <= 1)
    ensures NoTripleNewline([c] + rest)
  {
    var r := [c] + rest;
    assert forall k :: 1 <= k < |r| ==> r[k] == rest[k - 1];
  }

  /** `normalize_text(txt)`: an empty input gives an empty output; otherwise
      the output holds no carriage return, no three consecutive line breaks
      and no whitespace at either end. */
  function NormalizeText(txt: string, isWord: char -> bool): (r: string)
    ensures txt == [] ==> r == []
    ensures '\r' !in r
    ensures NoTripleNewline(r)
    ensures Trimmed(r)
  {
    if txt == [] then []
    else
      var collapsed := CollapseBlankRuns(Heal(RemoveCarriageReturns(txt), isWord));
      StripKeepsCleanliness(collapsed);
      Strip(collapsed)
  }

  lemma StripKeepsCleanliness(s: string)
    requires NoTripleNewline(s) && '\r' !in s
    ensures NoTripleNewline(Strip(s)) && '\r' !in Strip(s)
  {
    StripSlice(s);
    var i, r := LeadingSpaces(s), Strip(s);
    assert r == s[i..i + |r|];
    assert forall k :: 0 <= k < |r| ==> r[k] == s[i + k];
  }

  /** A string with no run of three line breaks is left as it is, so
      `CollapseBlankRuns` changes a string exactly when it holds such a run. */
  lemma {:induction false} CollapseKeepsShortRuns(s: string)
    requires NoTripleNewline(s)
    ensures CollapseBlankRuns(s) == s
  {
    if s != [] {
      if |s| >= 3 {
        assert !(s[0] == '\n' && s[1] == '\n' && s[2] == '\n');
      }
      assert NoTripleNewline(s[1..]) by {
        assert forall k :: 0 <= k < |s| - 1 ==> s[1..][k] == s[k + 1];
      }
      CollapseKeepsShortRuns(s[1..]);
    }
  }

  /** A single character is never part of a run to collapse. */
  lemma CollapseOne(c: char)
    ensures CollapseBlankRuns([c]) == [c]
  {
    assert [c][1..] == [];
    assert LeadingNewlines([c][1..]) == 0;
  }

  /** `k` line breaks. */
  function Newlines(k: nat): (r: string)
    ensures |r| == k && forall i :: 0 <= i < k ==> r[i] == '\n'
  {
    if k == 0 then [] else "\n" + Newlines(k - 1)
  }

  /** `s` does not end in a line break, so no run of them crosses its end. */
  predicate EndsOffBreak(s: string)
  {
    s == [] || s[|s| - 1] != '\n'
  }

  /** A text that does not end in a line break is collapsed on its own:
      collapsing distributes over such a joint. */
  lemma {:induction false} CollapseAppend(a: string, b: string)
    requires EndsOffBreak(a)
    ensures CollapseBlankRuns(a + b) == CollapseBlankRuns(a) + CollapseBlankRuns(b)
    decreases |a|
  {
    if a == [] {
      assert a + b == b;
    } else {
      var n := LeadingNewlines(a);
      LeadingNewlinesAppend(a, b);
      CollapseStep(a);
      CollapseStep(a + b);
      if n >= 3 {
        AppendDrop(a, b, n);
        CollapseAppend(a[n..], b);
        Assoc("\n\n", CollapseBlankRuns(a[n..]), CollapseBlankRuns(b));
      } else {
        AppendTail(a, b);
        CollapseAppend(a[1..], b);
        Assoc([a[0]], CollapseBlankRuns(a[1..]), CollapseBlankRuns(b));
      }
    }
  }

  /** One step of `CollapseBlankRuns`. */
  lemma CollapseStep(s: string)
    requires s != []
    ensures CollapseBlankRuns(s) ==
      if LeadingNewlines(s) >= 3 then "\n\n" + CollapseBlankRuns(s[LeadingNewlines(s)..])
      else [s[0]] + CollapseBlankRuns(s[1..])
  {
  }

  lemma LeadingNewlinesAppend(a: string, b: string)
    requires a != [] && EndsOffBreak(a)
    ensures LeadingNewlines(a + b) == LeadingNewlines(a) < |a|
    ensures EndsOffBreak(a[LeadingNewlines(a)..]) && EndsOffBreak(a[1..])
  {
    var n := LeadingNewlines(a);
    assert n < |a|;
    var ab := a + b;
    assert forall i :: 0 <= i < n ==> ab[i] == '\n';
    assert ab[n] == a[n];
    LeadingNewlinesIs(ab, n);
  }

  /** A run of three or more line breaks between two other characters, or at
      either end, becomes exactly one blank line. */
  lemma CollapseLongRun(a: string, k: nat, b: string)
    requires k >= 3 && EndsOffBreak(a) && (b == [] || b[0] != '\n')
    ensures CollapseBlankRuns(a + Newlines(k) + b) == CollapseBlankRuns(a) + "\n\n" + CollapseBlankRuns(b)
  {
    Assoc(a, Newlines(k), b);
    CollapseAppend(a, Newlines(k) + b);
    var t := Newlines(k) + b;
    LeadingNewlinesIs(t, k);
    CollapseStep(t);
    assert t[k..] == b;
    Assoc(CollapseBlankRuns(a), "\n\n", CollapseBlankRuns(b));
  }

  /** A run of one or two line breaks is kept as it is. */
  lemma CollapseShortRun(a: string, k: nat, b: string)
    requires 1 <= k <= 2 && EndsOffBreak(a) && (b == [] || b[0] != '\n')
    ensures CollapseBlankRuns(a + Newlines(k) + b) == CollapseBlankRuns(a) + Newlines(k) + CollapseBlankRuns(b)
  {
    Assoc(a, Newlines(k), b);
    CollapseAppend(a, Newlines(k) + b);
    ShortRunKept(k, b);
    Assoc(CollapseBlankRuns(a), Newlines(k), CollapseBlankRuns(b));
  }

  lemma {:induction false} ShortRunKept(k: nat, b: string)
    requires k <= 2 && (b == [] || b[0] != '\n')
    ensures CollapseBlankRuns(Newlines(k) + b) == Newlines(k) + CollapseBlankRuns(b)
  {
    var t := Newlines(k) + b;
    if k == 0 {
      assert t == b;
    } else {
      LeadingNewlinesIs(t, k);
      CollapseStep(t);
      AppendTail(Newlines(k), b);
      assert Newlines(k)[1..] == Newlines(k - 1);
      ShortRunKept(k - 1, b);
      Assoc([t[0]], Newlines(k - 1), CollapseBlankRuns(b));
    }
  }

  lemma LeadingNewlinesIs(s: string, k: nat)
    requires k <= |s| && (forall i :: 0 <= i < k ==> s[i] == '\n') && (k < |s| ==> s[k] != '\n')
    ensures LeadingNewlines(s) == k
  {
    if k > 0 {
      LeadingNewlinesIs(s[1..], k - 1);
    }
  }

  /** A character that no heal match can end in front of. */
  predicate Separator(c: char, isWord: char -> bool)
  {
    !isWord(c) && c != '-' && c != '\n'
  }

  /** When `a` ends in a separator no match straddles the joint, so healing
      works on the two halves independently. */
  lemma {:induction false} HealAppend(a: string, b: string, isWord: char -> bool)
    requires a == [] || Separator(a[|a| - 1], isWord)
    ensures Heal(a + b, isWord) == Heal(a, isWord) + Heal(b, isWord)
    decreases |a|
  {
    if a == [] {
      assert a + b == b;
    } else {
      var s := a + b;
      assert s[0] == a[0];
      if HealSite(s, isWord) {
        assert |a| >= 4;
        assert HealSite(a, isWord);
        assert s[4..] == a[4..] + b;
        HealAppend(a[4..], b, isWord);
      } else {
        assert !HealSite(a, isWord);
        assert s[1..] == a[1..] + b;
        HealAppend(a[1..], b, isWord);
      }
    }
  }

  /** An isolated `x-\ny` of word characters becomes `xy`. */
  lemma HealIsolated(a: string, x: char, y: char, b: string, isWord: char -> bool)
    requires isWord(x) && isWord(y)
    requires a == [] || Separator(a[|a| - 1], isWord)
    ensures Heal(a + [x, '-', '\n', y] + b, isWord) == Heal(a, isWord) + [x, y] + Heal(b, isWord)
  {
    var w := [x, '-', '\n', y];
    Assoc(a, w, b);
    HealAppend(a, w + b, isWord);
    HealAtSite(x, y, b, isWord);
    Assoc(Heal(a, isWord), [x, y], Heal(b, isWord));
  }

  /** A match at the very start loses its hyphen and line break. */
  lemma HealAtSite(x: char, y: char, b: string, isWord: char -> bool)
    requires isWord(x) && isWord(y)
    ensures Heal([x, '-', '\n', y] + b, isWord) == [x, y] + Heal(b, isWord)
  {
    var site := [x, '-', '\n', y] + b;
    assert HealSite(site, isWord);
    DropPrefix([x, '-', '\n', y], b);
  }

  /** The whole of `normalize_text` on a broken word alone. */
  lemma NormalizeJoinsBrokenWord(x: char, y: char, isWord: char -> bool)
    requires WordClassFacts(isWord)
    requires isWord(x) && isWord(y)
    ensures NormalizeText([x, '-', '\n', y], isWord) == [x, y]
  {
    var s := [x, '-', '\n', y];
    assert RemoveCarriageReturns(s) == s by {
      assert RemoveCarriageReturns(s[3..]) == s[3..];
      assert RemoveCarriageReturns(s[2..]) == s[2..];
      assert RemoveCarriageReturns(s[1..]) == s[1..];
    }
    assert HealSite(s, isWord);
    assert Heal(s, isWord) == [x, y];
    CollapseKeepsShortRuns([x, y]);
    assert !IsSpace(x) && !IsSpace(y);
    StripTrimmed([x, y]);
  }

  /** `normalize_text` is not idempotent: the second of two chained breaks is
      only healed by a second pass, because the first match consumed the
      word character it needed. */
  lemma NormalizeNotIdempotent(isWord: char -> bool)
    requires WordClassFacts(isWord)
    requires isWord('a') && isWord('b') && isWord('c')
    ensures NormalizeText("a-\nb-\nc", isWord) == "ab-\nc"
    ensures NormalizeText("ab-\nc", isWord) == "abc"
  {
    HealChained(isWord);
    ChainedShapes();
    NormalizeClean("a-\nb-\nc", "ab-\nc", isWord);
    NormalizeClean("ab-\nc", "abc", isWord);
  }

  /** The texts of the chained example are free of carriage returns, blank
      lines and surrounding whitespace. */
  lemma ChainedShapes()
    ensures '\r' !in "a-\nb-\nc" && '\r' !in "ab-\nc"
    ensures Trimmed("ab-\nc") && Trimmed("abc")
    ensures forall i :: 0 <= i < |"ab-\nc"| - 1 ==> !("ab-\nc"[i] == '\n' && "ab-\nc"[i + 1] == '\n')
    ensures forall i :: 0 <= i < |"abc"| - 1 ==> !("abc"[i] == '\n' && "abc"[i + 1] == '\n')
  {
  }

  lemma HealChained(isWord: char -> bool)
    requires WordClassFacts(isWord)
    requires isWord('a') && isWord('b') && isWord('c')
    ensures Heal("a-\nb-\nc", isWord) == "ab-\nc"
    ensures Heal("ab-\nc", isWord) == "abc"
  {
    var s := "a-\nb-\nc";
    assert HealSite(s, isWord) && s[4..] == "-\nc";
    assert !HealSite("-\nc", isWord) && "-\nc"[1..] == "\nc";
    assert !HealSite("\nc", isWord) && "\nc"[1..] == "c";
    assert Heal("c", isWord) == "c";
    var t := "ab-\nc";
    assert !HealSite(t, isWord) && t[1..] == "b-\nc";
    assert HealSite(t[1..], isWord) && t[1..][4..] == [];
  }

  /** When healing is the only change, `normalize_text` returns the healed text. */
  lemma NormalizeClean(s: string, healed: string, isWord: char -> bool)
    requires s != [] && '\r' !in s && Heal(s, isWord) == healed
    requires forall i :: 0 <= i < |healed| - 1 ==> !(healed[i] == '\n' && healed[i + 1] == '\n')
    requires Trimmed(healed)
    ensures NormalizeText(s, isWord) == healed
  {
    CarriageReturnFree(s);
    NoTripleSmall(healed);
    CollapseKeepsShortRuns(healed);
    StripTrimmed(healed);
  }

  lemma {:induction false} CarriageReturnFree(s: string)
    requires '\r' !in s
    ensures RemoveCarriageReturns(s) == s
  {
    if s != [] {
      CarriageReturnFree(s[1..]);
    }
  }

  lemma NoTripleSmall(s: string)
    requires forall i :: 0 <= i < |s| - 1 ==> !(s[i] == '\n' && s[i + 1] == '\n')
    ensures NoTripleNewline(s)
  {
  }

  /** Healing only ever removes a hyphen: a text without one is unchanged. */
  lemma {:induction false} HealNeedsHyphen(s: string, isWord: char -> bool)
    requires '-' !in s
    ensures Heal(s, isWord) == s
  {
    if s != [] {
      assert |s| >= 2 ==> s[1] in s;
      HealNeedsHyphen(s[1..], isWord);
    }
  }
}
