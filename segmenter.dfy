/** `split_sections`: cut a decision's normalised text into named sections.
    Heading candidates come from the fixed list `KNOWN_ORDER` and from lines
    of capitals (`CAPS_LINE`); the candidates, sorted by position, become one
    alternation that is matched again over the whole text, and each match
    owns the text up to the next match. */
module Segmenter {
  import opened Chars
  import opened TextOps
  import opened Optionals
  import opened OrderedDict
  import opened Normalizer

  const KnownOrder: seq<string> := [
    "DIGEST", "BACKGROUND", "DISCUSSION", "DECISION",
    "CONCLUSION", "RECOMMENDATION", "CONCLUSIONS", "RECOMMENDATIONS"
  ]

  /** The key under which a text without any heading is returned whole. */
  const FullReportKey: string := "Full Report Text"

  /** The letter-spaced banner that `CAPS_LINE` matches but that is not a heading. */
  const SpacedBanner: string := "U N I T E D  S T A T E S"

  /** `^` under `re.MULTILINE`. */
  predicate LineStart(s: string, p: nat)
    requires p <= |s|
  {
    p == 0 || s[p - 1] == '\n'
  }

  /** `$` under `re.MULTILINE`. */
  predicate LineEnd(s: string, p: nat)
    requires p <= |s|
  {
    p == |s| || s[p] == '\n'
  }

  /** A greedy quantifier backing off until `$` holds: the largest line end
      in `[lo, hi]`. */
  function LastLineEnd(s: string, lo: nat, hi: nat): (r: Option<nat>)
    requires lo <= hi <= |s|
    ensures r.Some? ==> lo <= r.value <= hi && LineEnd(s, r.value)
    ensures r.Some? ==> forall e :: r.value < e <= hi ==> !LineEnd(s, e)
    ensures r.None? ==> forall e :: lo <= e <= hi ==> !LineEnd(s, e)
    decreases hi - lo
  {
    if LineEnd(s, hi) then Some(hi)
    else if hi == lo then None
    else LastLineEnd(s, lo, hi - 1)
  }

  /** `\s*$` tried at `q`: where the match ends, if it can end at all. */
  function SpacesToLineEnd(s: string, q: nat): (r: Option<nat>)
    requires q <= |s|
    ensures r.Some? ==> q <= r.value <= |s| && LineEnd(s, r.value) && AllSpace(s[q..r.value])
  {
    var r := LastLineEnd(s, q, q + LeadingSpaces(s[q..]));
    if r.Some? then
      assert s[q..r.value] == s[q..][..r.value - q];
      r
    else r
  }

  /** `^h\s*$` tried at `p`: the end of the match. */
  function HeadingMatch(s: string, p: nat, h: string): (r: Option<nat>)
    requires p <= |s|
    ensures r.Some? ==> p + |h| <= r.value <= |s| && LineStart(s, p) && s[p..p + |h|] == h
    ensures r.Some? ==> LineEnd(s, r.value) && AllSpace(s[p + |h|..r.value])
  {
    if LineStart(s, p) && StartsWith(s[p..], h) then SpacesToLineEnd(s, p + |h|) else None
  }

  /** `re.search(fr"(?m)^{re.escape(h)}\s*$", s)`, looking from `from` on:
      the first position where the heading stands alone on its line. */
  function FirstHeading(s: string, h: string, from: nat): (r: Option<nat>)
    requires from <= |s|
    ensures r.Some? ==> from <= r.value <= |s| && HeadingMatch(s, r.value, h).Some?
    ensures forall q :: from <= q <= |s| && (r.None? || q < r.value) ==> HeadingMatch(s, q, h).None?
    decreases |s| - from
  {
    if HeadingMatch(s, from, h).Some? then Some(from)
    else if from == |s| then None
    else FirstHeading(s, h, from + 1)
  }

  /** A character that differs from the heading's stops the heading there. */
  lemma Mismatch(s: string, q: nat, h: string, k: nat)
    requires k < |h| && q + k < |s| && s[q + k] != h[k]
    ensures !StartsWith(s[q..], h)
  {
  }

  /** The first position where a heading stands alone is pinned down by a
      match there and none before it. */
  lemma FirstHeadingIs(s: string, h: string, p: nat)
    requires p <= |s| && HeadingMatch(s, p, h).Some?
    requires forall q :: 0 <= q < p ==> HeadingMatch(s, q, h).None?
    ensures FirstHeading(s, h, 0) == Some(p)
  {
  }

  /** A heading at a line start followed by a single line break and then
      text matches up to that line break. */
  lemma StandsAloneAt(s: string, p: nat, h: string)
    requires p + |h| + 1 < |s| && LineStart(s, p) && s[p..p + |h|] == h
    requires s[p + |h|] == '\n' && !IsSpace(s[p + |h| + 1])
    ensures HeadingMatch(s, p, h) == Some(p + |h|)
  {
    var q := p + |h|;
    assert s[p..][..|h|] == h;
    assert s[q..][0] == '\n' && s[q..][1] == s[q + 1];
    LeadingSpacesIs(s[q..], 1);
    assert LastLineEnd(s, q, q + 1) == LastLineEnd(s, q, q);
  }

  /** The first character of `CAPS_LINE`: `[A-Z0-9]`. */
  predicate IsCapsLead(c: char)
  {
    'A' <= c <= 'Z' || IsDigit(c)
  }

  /** The rest of `CAPS_LINE`: `[A-Z0-9\s’'()/\-,.:;]`; whitespace includes
      the line break, so a match may run over several lines. */
  predicate IsCapsChar(c: char)
  {
    IsCapsLead(c) || IsSpace(c) || c == '\U{2019}' || c == '\'' || c == '(' || c == ')'
    || c == '/' || c == '-' || c == ',' || c == '.' || c == ':' || c == ';'
  }

  /** How many characters of the `CAPS_LINE` class follow `q`. */
  function CapsRun(s: string, q: nat): (n: nat)
    requires q <= |s|
    ensures q + n <= |s|
    ensures forall i :: q <= i < q + n ==> IsCapsChar(s[i])
    ensures q + n < |s| ==> !IsCapsChar(s[q + n])
    decreases |s| - q
  {
    if q == |s| || !IsCapsChar(s[q]) then 0 else 1 + CapsRun(s, q + 1)
  }

  /** `CapsRun` is pinned down by where the class characters stop. */
  lemma CapsRunIs(s: string, q: nat, n: nat)
    requires q + n <= |s| && forall i :: q <= i < q + n ==> IsCapsChar(s[i])
    requires q + n < |s| ==> !IsCapsChar(s[q + n])
    ensures CapsRun(s, q) == n
  {
  }

  function Min(a: nat, b: nat): nat
  {
    if a <= b then a else b
  }

  /** How far `[A-Z0-9][...]{3,40}` can reach from `p` before backing off. */
  function CapsReach(s: string, p: nat): (hi: nat)
    requires p < |s|
    ensures p + 1 <= hi <= p + 41 && hi <= |s|
    ensures forall i :: p + 1 <= i < hi ==> IsCapsChar(s[i])
  {
    p + 1 + Min(40, CapsRun(s, p + 1))
  }

  /** A capital or digit at a line start: where `CAPS_LINE` may begin. */
  predicate CapsStart(s: string, p: nat)
    requires p <= |s|
  {
    p < |s| && LineStart(s, p) && IsCapsLead(s[p])
  }

  /** `CAPS_LINE` tried at `p`: a capital or digit at a line start, then three
      to forty class characters, as many as still let the match end at a
      line end. */
  function CapsMatch(s: string, p: nat): (r: Option<nat>)
    requires p <= |s|
    ensures r.Some? ==> p + 4 <= r.value <= p + 41 && r.value <= |s|
    ensures r.Some? ==> CapsStart(s, p) && LineEnd(s, r.value)
    ensures r.Some? ==> forall i :: p <= i < r.value ==> IsCapsChar(s[i])
  {
    if CapsStart(s, p) then
      var hi := CapsReach(s, p);
      if hi < p + 4 then None else LastLineEnd(s, p + 4, hi)
    else None
  }

  /** `CAPS_LINE` fails at `p` exactly when `p` cannot start it or no line
      end lies within reach after the first four characters; when it
      matches, it ends at the last such line end. */
  lemma CapsMatchExact(s: string, p: nat)
    requires p <= |s|
    ensures CapsMatch(s, p).None? <==>
      !CapsStart(s, p) || forall e :: p + 4 <= e <= CapsReach(s, p) ==> !LineEnd(s, e)
    ensures CapsMatch(s, p).Some? ==>
      && CapsMatch(s, p).value <= CapsReach(s, p)
      && forall e :: CapsMatch(s, p).value < e <= CapsReach(s, p) ==> !LineEnd(s, e)
  {
    if CapsStart(s, p) && CapsReach(s, p) >= p + 4 {
      var r := LastLineEnd(s, p + 4, CapsReach(s, p));
      assert CapsMatch(s, p) == r;
    }
  }

  /** No match of `re.finditer` covers `q`. */
  predicate Uncovered(ms: seq<(nat, nat)>, q: nat)
  {
    forall i :: 0 <= i < |ms| ==> !(ms[i].0 <= q < ms[i].1)
  }

  /** `re.finditer(CAPS_LINE, s)` from `from` on: (start, end) of each match,
      the search resuming where the previous match ended. */
  function CapsMatches(s: string, from: nat): (r: seq<(nat, nat)>)
    requires from <= |s|
    ensures forall i :: 0 <= i < |r| ==> from <= r[i].0 && r[i].0 + 4 <= r[i].1 <= |s|
    ensures forall i :: 0 <= i < |r| ==> CapsMatch(s, r[i].0) == Some(r[i].1)
    ensures forall i, j :: 0 <= i < j < |r| ==> r[i].1 <= r[j].0
    ensures forall q :: from <= q < |s| && Uncovered(r, q) ==> CapsMatch(s, q).None?
    decreases |s| - from
  {
    if from == |s| then []
    else match CapsMatch(s, from)
      case Some(e) =>
        var rest := CapsMatches(s, e);
        MatchesConsOrder(s, from, e, rest);
        MatchesConsFound(s, from, e, rest);
        MatchesConsComplete(s, from, e, rest);
        [(from, e)] + rest
      case None =>
        var rest := CapsMatches(s, from + 1);
        MatchesSkip(s, from, rest);
        rest
  }

  /** `CAPS_LINE` matches nowhere in `[from, to)`. */
  predicate NoCapsBetween(s: string, from: nat, to: nat)
    requires to <= |s|
  {
    forall q :: from <= q < to ==> CapsMatch(s, q).None?
  }

  /** A position where `CAPS_LINE` fails is passed over. */
  lemma CapsSkipOne(s: string, from: nat)
    requires from < |s| && CapsMatch(s, from).None?
    ensures CapsMatches(s, from) == CapsMatches(s, from + 1)
  {
  }

  /** A match is reported and the scan resumes at its end. */
  lemma CapsTakeOne(s: string, from: nat, e: nat)
    requires from < |s| && CapsMatch(s, from) == Some(e)
    ensures CapsMatches(s, from) == [(from, e)] + CapsMatches(s, e)
  {
  }

  lemma MatchesSkip(s: string, from: nat, rest: seq<(nat, nat)>)
    requires from < |s| && CapsMatch(s, from).None?
    requires forall i :: 0 <= i < |rest| ==> from + 1 <= rest[i].0 && rest[i].0 + 4 <= rest[i].1 <= |s|
    requires forall q :: from + 1 <= q < |s| && Uncovered(rest, q) ==> CapsMatch(s, q).None?
    ensures forall i :: 0 <= i < |rest| ==> from <= rest[i].0
    ensures forall q :: from <= q < |s| && Uncovered(rest, q) ==> CapsMatch(s, q).None?
  {
  }

  lemma MatchesConsOrder(s: string, from: nat, e: nat, rest: seq<(nat, nat)>)
    requires from + 4 <= e <= |s|
    requires forall i :: 0 <= i < |rest| ==> e <= rest[i].0 && rest[i].0 + 4 <= rest[i].1 <= |s|
    requires forall i, j :: 0 <= i < j < |rest| ==> rest[i].1 <= rest[j].0
    ensures var r := [(from, e)] + rest;
      && (forall i :: 0 <= i < |r| ==> from <= r[i].0 && r[i].0 + 4 <= r[i].1 <= |s|)
      && (forall i, j :: 0 <= i < j < |r| ==> r[i].1 <= r[j].0)
  {
    var r := [(from, e)] + rest;
    forall i | 1 <= i < |r|
      ensures r[i] == rest[i - 1]
    {
    }
    forall i, j | 0 <= i < j < |r|
      ensures r[i].1 <= r[j].0
    {
      if i > 0 {
        assert r[i] == rest[i - 1] && r[j] == rest[j - 1];
      }
    }
  }

  lemma MatchesConsFound(s: string, from: nat, e: nat, rest: seq<(nat, nat)>)
    requires from <= |s| && CapsMatch(s, from) == Some(e)
    requires forall i :: 0 <= i < |rest| ==> rest[i].0 <= |s| && CapsMatch(s, rest[i].0) == Some(rest[i].1)
    ensures var r := [(from, e)] + rest;
      forall i :: 0 <= i < |r| ==> r[i].0 <= |s| && CapsMatch(s, r[i].0) == Some(r[i].1)
  {
    var r := [(from, e)] + rest;
    forall i | 1 <= i < |r|
      ensures r[i] == rest[i - 1]
    {
    }
  }

  lemma MatchesConsComplete(s: string, from: nat, e: nat, rest: seq<(nat, nat)>)
    requires from < e <= |s|
    requires forall q :: e <= q < |s| && Uncovered(rest, q) ==> CapsMatch(s, q).None?
    ensures forall q :: from <= q < |s| && Uncovered([(from, e)] + rest, q) ==> CapsMatch(s, q).None?
  {
    var r := [(from, e)] + rest;
    forall q | from <= q < |s| && Uncovered(r, q)
      ensures CapsMatch(s, q).None?
    {
      assert !(r[0].0 <= q < r[0].1);
      assert Uncovered(rest, q) by {
        forall i | 0 <= i < |rest|
          ensures !(rest[i].0 <= q < rest[i].1)
        {
          assert r[i + 1] == rest[i];
        }
      }
    }
  }

  /** The first loop: each heading of `hs` found in `s` is assigned its position. */
  function KnownCandidates(s: string, hs: seq<string>): (d: Dict<nat>)
    ensures UniqueKeys(d)
    ensures forall h :: h in Keys(d) <==> h in hs && FirstHeading(s, h, 0).Some?
    ensures forall x :: x in d ==> FirstHeading(s, x.0, 0) == Some(x.1)
  {
    if hs == [] then []
    else
      var d := KnownCandidates(s, hs[..|hs| - 1]);
      var h := hs[|hs| - 1];
      match FirstHeading(s, h, 0)
      case Some(p) => Put(d, h, p)
      case None => d
  }

  /** Every `CAPS_LINE` match of `s`: its stripped text and its start. */
  function CapsLines(s: string): (cs: seq<(string, nat)>)
  {
    var ms := CapsMatches(s, 0);
    seq(|ms|, i requires 0 <= i < |ms| => (Strip(s[ms[i].0..ms[i].1]), ms[i].0))
  }

  /** The second loop, over the first `n` lines of capitals: each one other
      than the banner is added with its position unless it is already a
      candidate. */
  function CapsCandidates(d: Dict<nat>, cs: seq<(string, nat)>, n: nat): (r: Dict<nat>)
    requires n <= |cs|
    ensures UniqueKeys(d) ==> UniqueKeys(r)
    ensures Keys(d) <= Keys(r)
    ensures forall x :: x in r ==> x in d || x in cs
    ensures forall x :: x in r && x !in d ==> x.0 != SpacedBanner
  {
    if n == 0 then d
    else
      var r, c := CapsCandidates(d, cs, n - 1), cs[n - 1];
      if c.0 == SpacedBanner then r else SetDefault(r, c.0, c.1)
  }

  /** `found_positions` once both loops have run. */
  function Candidates(s: string): (d: Dict<nat>)
    ensures UniqueKeys(d)
    ensures forall h :: h in KnownOrder && FirstHeading(s, h, 0).Some? ==> h in Keys(d)
  {
    var cs := CapsLines(s);
    CapsCandidates(KnownCandidates(s, KnownOrder), cs, |cs|)
  }

  predicate SortedByPosition(xs: seq<(string, nat)>)
  {
    forall i, j :: 0 <= i < j < |xs| ==> xs[i].1 <= xs[j].1
  }

  /** Insert `x` after every entry whose position is not greater. */
  function InsertByPosition(x: (string, nat), xs: seq<(string, nat)>): (r: seq<(string, nat)>)
    ensures multiset(r) == multiset(xs) + multiset{x}
    ensures r[0] == x || (xs != [] && r[0] == xs[0])
  {
    if xs == [] then [x]
    else if x.1 < xs[0].1 then [x] + xs
    else
      assert xs == [xs[0]] + xs[1..];
      [xs[0]] + InsertByPosition(x, xs[1..])
  }

  lemma {:induction false} InsertKeepsSorted(x: (string, nat), xs: seq<(string, nat)>)
    requires SortedByPosition(xs)
    ensures SortedByPosition(InsertByPosition(x, xs))
  {
    if xs != [] && x.1 >= xs[0].1 {
      InsertKeepsSorted(x, xs[1..]);
      SortedCons(xs[0], InsertByPosition(x, xs[1..]));
    }
  }

  /** A sorted list stays sorted under a first entry no later than its own first. */
  lemma SortedCons(y: (string, nat), rest: seq<(string, nat)>)
    requires SortedByPosition(rest)
    requires rest != [] ==> y.1 <= rest[0].1
    ensures SortedByPosition([y] + rest)
  {
    var r := [y] + rest;
    assert forall j :: 1 <= j < |r| ==> r[j] == rest[j - 1];
  }

  /** `sorted(found_positions.items(), key=lambda kv: kv[1])`: a stable sort
      by position. */
  function SortByPosition(xs: seq<(string, nat)>): (r: seq<(string, nat)>)
    ensures SortedByPosition(r)
    ensures multiset(r) == multiset(xs)
  {
    if xs == [] then []
    else
      var init := xs[..|xs| - 1];
      assert xs == init + [xs[|xs| - 1]];
      InsertKeepsSorted(xs[|xs| - 1], SortByPosition(init));
      InsertByPosition(xs[|xs| - 1], SortByPosition(init))
  }

  /** The entries of `xs` found at position `p`, in their order in `xs`. */
  function EntriesAt(xs: seq<(string, nat)>, p: nat): seq<(string, nat)>
  {
    if xs == [] then []
    else (if xs[0].1 == p then [xs[0]] else []) + EntriesAt(xs[1..], p)
  }

  /** The sort is stable: entries found at the same position keep the order
      they had in `xs`. */
  lemma {:induction false} SortByPositionStable(xs: seq<(string, nat)>, p: nat)
    ensures EntriesAt(SortByPosition(xs), p) == EntriesAt(xs, p)
    decreases |xs|
  {
    if xs != [] {
      var init, one := xs[..|xs| - 1], xs[|xs| - 1..];
      SortStep(xs);
      SortByPositionStable(init, p);
      InsertEntriesAt(xs[|xs| - 1], SortByPosition(init), p);
      TakeDrop(xs, |xs| - 1);
      EntriesAtAppend(init, one, p);
      assert one[1..] == [];
    }
  }

  /** One step of `SortByPosition`: the last entry is inserted into the
      sorted rest. */
  lemma SortStep(xs: seq<(string, nat)>)
    requires xs != []
    ensures SortByPosition(xs) == InsertByPosition(xs[|xs| - 1], SortByPosition(xs[..|xs| - 1]))
  {
  }

  lemma {:induction false} EntriesAtAppend(a: seq<(string, nat)>, b: seq<(string, nat)>, p: nat)
    ensures EntriesAt(a + b, p) == EntriesAt(a, p) + EntriesAt(b, p)
  {
    if a == [] {
      assert a + b == b;
    } else {
      AppendTail(a, b);
      EntriesAtAppend(a[1..], b, p);
      Assoc(if a[0].1 == p then [a[0]] else [], EntriesAt(a[1..], p), EntriesAt(b, p));
    }
  }

  /** Inserting `x` puts it after every entry at its own position. */
  lemma {:induction false} InsertEntriesAt(x: (string, nat), ys: seq<(string, nat)>, p: nat)
    requires SortedByPosition(ys)
    ensures EntriesAt(InsertByPosition(x, ys), p) == EntriesAt(ys, p) + (if x.1 == p then [x] else [])
  {
    if ys == [] || x.1 < ys[0].1 {
      assert InsertByPosition(x, ys) == [x] + ys;
      InsertAtFront(x, ys, p);
    } else {
      InsertEntriesAt(x, ys[1..], p);
      InsertPastHead(x, ys, p, InsertByPosition(x, ys[1..]));
    }
  }

  lemma InsertAtFront(x: (string, nat), ys: seq<(string, nat)>, p: nat)
    requires SortedByPosition(ys) && (ys == [] || x.1 < ys[0].1)
    ensures EntriesAt([x] + ys, p) == EntriesAt(ys, p) + (if x.1 == p then [x] else [])
  {
    EntriesAtCons(x, ys, p);
    if x.1 == p && ys != [] {
      EntriesAtLater(ys, p);
    }
  }

  lemma InsertPastHead(x: (string, nat), ys: seq<(string, nat)>, p: nat, rest: seq<(string, nat)>)
    requires ys != []
    requires EntriesAt(rest, p) == EntriesAt(ys[1..], p) + (if x.1 == p then [x] else [])
    ensures EntriesAt([ys[0]] + rest, p) == EntriesAt(ys, p) + (if x.1 == p then [x] else [])
  {
    EntriesAtCons(ys[0], rest, p);
    Assoc(if ys[0].1 == p then [ys[0]] else [], EntriesAt(ys[1..], p), if x.1 == p then [x] else []);
  }

  /** One step of `EntriesAt`. */
  lemma EntriesAtCons(y: (string, nat), rest: seq<(string, nat)>, p: nat)
    ensures EntriesAt([y] + rest, p) == (if y.1 == p then [y] else []) + EntriesAt(rest, p)
  {
    assert ([y] + rest)[1..] == rest;
  }

  /** A sorted list that starts past `p` has nothing at `p`. */
  lemma {:induction false} EntriesAtLater(ys: seq<(string, nat)>, p: nat)
    requires SortedByPosition(ys) && ys != [] && p < ys[0].1
    ensures EntriesAt(ys, p) == []
    decreases |ys|
  {
    if |ys| > 1 {
      EntriesAtLater(ys[1..], p);
    }
  }

  function Names(xs: seq<(string, nat)>): seq<string>
  {
    seq(|xs|, i requires 0 <= i < |xs| => xs[i].0)
  }

  predicate NonEmptyNames(hs: seq<string>)
  {
    forall i :: 0 <= i < |hs| ==> hs[i] != []
  }

  /** The alternation `^(h1|h2|...)\s*$` tried at `p`: the alternatives are
      tried in order and the first that lets the rest of the pattern match
      wins; the result is the alternative and the end of the match. */
  function AlternationMatch(s: string, p: nat, hs: seq<string>): (r: Option<(string, nat)>)
    requires p <= |s|
    ensures r.Some? ==> r.value.0 in hs && HeadingMatch(s, p, r.value.0) == Some(r.value.1)
    ensures r.None? <==> forall h :: h in hs ==> HeadingMatch(s, p, h).None?
  {
    if hs == [] then None
    else
      assert hs == [hs[0]] + hs[1..];
      match HeadingMatch(s, p, hs[0])
      case Some(e) => Some((hs[0], e))
      case None => AlternationMatch(s, p, hs[1..])
  }

  /** One `(m.group(0).strip(), m.start(), m.end())`. */
  datatype Mark = Mark(name: string, start: nat, end: nat)

  predicate MarksInOrder(s: string, ms: seq<Mark>)
  {
    && (forall i :: 0 <= i < |ms| ==> ms[i].start < ms[i].end <= |s|)
    && (forall i :: 0 <= i < |ms| - 1 ==> ms[i].end <= ms[i + 1].start)
  }

  /** `m` is a match of the alternation of `hs` in `s`, named by its stripped text. */
  predicate MatchedMark(s: string, hs: seq<string>, m: Mark)
  {
    && m.start <= m.end <= |s|
    && AlternationMatch(s, m.start, hs).Some?
    && AlternationMatch(s, m.start, hs).value.1 == m.end
    && m.name == Strip(s[m.start..m.end])
  }

  /** `rx.finditer(s)` from `from` on. */
  function MarksFrom(s: string, hs: seq<string>, from: nat): (r: seq<Mark>)
    requires from <= |s| && NonEmptyNames(hs)
    ensures MarksInOrder(s, r)
    ensures forall i :: 0 <= i < |r| ==> from <= r[i].start
    ensures forall i :: 0 <= i < |r| ==> MatchedMark(s, hs, r[i])
    ensures forall q :: from <= q < |s| && Unmarked(r, q) ==> AlternationMatch(s, q, hs).None?
    decreases |s| - from
  {
    if from == |s| then []
    else match AlternationMatch(s, from, hs)
      case Some((h, e)) =>
        AlternationAdvances(s, from, hs);
        var m := Mark(Strip(s[from..e]), from, e);
        var rest := MarksFrom(s, hs, e);
        MarksCons(s, hs, from, m, rest);
        MarksConsComplete(s, hs, from, m, rest);
        [m] + rest
      case None =>
        var rest := MarksFrom(s, hs, from + 1);
        MarksSkipComplete(s, hs, from, rest);
        rest
  }

  /** The alternation matches nowhere in `[from, to)`. */
  predicate NoMarkBetween(s: string, hs: seq<string>, from: nat, to: nat)
    requires to <= |s|
  {
    forall q :: from <= q < to ==> AlternationMatch(s, q, hs).None?
  }

  /** A position where the alternation fails is passed over. */
  lemma MarksSkipOne(s: string, hs: seq<string>, from: nat)
    requires from < |s| && NonEmptyNames(hs) && AlternationMatch(s, from, hs).None?
    ensures MarksFrom(s, hs, from) == MarksFrom(s, hs, from + 1)
  {
  }

  /** A match becomes a mark and the scan resumes at its end. */
  lemma MarksTakeOne(s: string, hs: seq<string>, from: nat, h: string, e: nat)
    requires from < e <= |s| && NonEmptyNames(hs) && AlternationMatch(s, from, hs) == Some((h, e))
    ensures MarksFrom(s, hs, from) == [Mark(Strip(s[from..e]), from, e)] + MarksFrom(s, hs, e)
  {
  }

  /** An alternation of two fails where both alternatives fail. */
  lemma NeitherMatches(s: string, q: nat, hs: seq<string>)
    requires q <= |s| && |hs| == 2
    requires HeadingMatch(s, q, hs[0]).None? && HeadingMatch(s, q, hs[1]).None?
    ensures AlternationMatch(s, q, hs).None?
  {
    assert hs[1..][0] == hs[1] && hs[1..][1..] == [];
    assert AlternationMatch(s, q, hs[1..]) == AlternationMatch(s, q, []);
  }

  /** The alternation matches with the first alternative that matches: every
      alternative listed before the winner fails there. */
  lemma {:induction false} AlternationMatchFirst(s: string, p: nat, hs: seq<string>)
    requires p <= |s| && AlternationMatch(s, p, hs).Some?
    ensures exists k :: && 0 <= k < |hs| && hs[k] == AlternationMatch(s, p, hs).value.0
                        && forall j :: 0 <= j < k ==> HeadingMatch(s, p, hs[j]).None?
  {
    if HeadingMatch(s, p, hs[0]).None? {
      var t := hs[1..];
      assert AlternationMatch(s, p, hs) == AlternationMatch(s, p, t);
      AlternationMatchFirst(s, p, t);
      var k :| && 0 <= k < |t| && t[k] == AlternationMatch(s, p, t).value.0
               && forall j :: 0 <= j < k ==> HeadingMatch(s, p, t[j]).None?;
      forall j | 0 <= j < k + 1
        ensures HeadingMatch(s, p, hs[j]).None?
      {
        if j > 0 {
          assert hs[j] == t[j - 1];
        }
      }
      assert hs[k + 1] == t[k];
    } else {
      assert hs[0] == AlternationMatch(s, p, hs).value.0;
    }
  }

  /** A match of the alternation is never empty, since no alternative is. */
  lemma AlternationAdvances(s: string, p: nat, hs: seq<string>)
    requires p <= |s| && NonEmptyNames(hs) && AlternationMatch(s, p, hs).Some?
    ensures p < AlternationMatch(s, p, hs).value.1 <= |s|
  {
        var h := AlternationMatch(s, p, hs).value.0;
    var k :| 0 <= k < |hs| && hs[k] == h;
  }

  lemma MarksCons(s: string, hs: seq<string>, from: nat, m: Mark, rest: seq<Mark>)
    requires from <= m.start < m.end <= |s| && MatchedMark(s, hs, m)
    requires MarksInOrder(s, rest)
    requires forall i :: 0 <= i < |rest| ==> m.end <= rest[i].start
    requires forall i :: 0 <= i < |rest| ==> MatchedMark(s, hs, rest[i])
    ensures MarksInOrder(s, [m] + rest)
    ensures forall i :: 0 <= i < |[m] + rest| ==> from <= ([m] + rest)[i].start
    ensures forall i :: 0 <= i < |[m] + rest| ==> MatchedMark(s, hs, ([m] + rest)[i])
  {
    OrderCons(s, from, m, rest);
    MatchedCons(s, hs, m, rest);
  }

  /** No mark covers `q`. */
  predicate Unmarked(ms: seq<Mark>, q: nat)
  {
    forall i :: 0 <= i < |ms| ==> !(ms[i].start <= q < ms[i].end)
  }

  lemma MarksConsComplete(s: string, hs: seq<string>, from: nat, m: Mark, rest: seq<Mark>)
    requires from == m.start < m.end <= |s|
    requires forall q :: m.end <= q < |s| && Unmarked(rest, q) ==> AlternationMatch(s, q, hs).None?
    ensures forall q :: from <= q < |s| && Unmarked([m] + rest, q) ==> AlternationMatch(s, q, hs).None?
  {
    var r := [m] + rest;
    forall q | from <= q < |s| && Unmarked(r, q)
      ensures AlternationMatch(s, q, hs).None?
    {
      assert !(r[0].start <= q < r[0].end);
      assert Unmarked(rest, q) by {
        forall i | 0 <= i < |rest|
          ensures !(rest[i].start <= q < rest[i].end)
        {
          assert r[i + 1] == rest[i];
        }
      }
    }
  }

  lemma MarksSkipComplete(s: string, hs: seq<string>, from: nat, rest: seq<Mark>)
    requires from < |s| && AlternationMatch(s, from, hs).None?
    requires forall q :: from + 1 <= q < |s| && Unmarked(rest, q) ==> AlternationMatch(s, q, hs).None?
    ensures forall q :: from <= q < |s| && Unmarked(rest, q) ==> AlternationMatch(s, q, hs).None?
  {
  }

  lemma OrderCons(s: string, from: nat, m: Mark, rest: seq<Mark>)
    requires from <= m.start < m.end <= |s|
    requires MarksInOrder(s, rest)
    requires forall i :: 0 <= i < |rest| ==> m.end <= rest[i].start
    ensures MarksInOrder(s, [m] + rest)
    ensures forall i :: 0 <= i < |[m] + rest| ==> from <= ([m] + rest)[i].start
  {
    var r := [m] + rest;
    assert forall i :: 1 <= i < |r| ==> r[i] == rest[i - 1];
  }

  lemma MatchedCons(s: string, hs: seq<string>, m: Mark, rest: seq<Mark>)
    requires MatchedMark(s, hs, m)
    requires forall i :: 0 <= i < |rest| ==> MatchedMark(s, hs, rest[i])
    ensures forall i :: 0 <= i < |[m] + rest| ==> MatchedMark(s, hs, ([m] + rest)[i])
  {
    var r := [m] + rest;
    forall i | 0 <= i < |r|
      ensures MatchedMark(s, hs, r[i])
    {
      if i > 0 {
        assert r[i] == rest[i - 1];
      }
    }
  }

  /** Where the body of mark `i` stops: the next mark's start, or the end. */
  function BodyEnd(s: string, ms: seq<Mark>, i: nat): (e: nat)
    requires MarksInOrder(s, ms) && i < |ms|
    ensures ms[i].end <= e <= |s|
  {
    if i + 1 < |ms| then ms[i + 1].start else |s|
  }

  /** `(name, body)` for every mark, in document order. */
  function SectionPairs(s: string, ms: seq<Mark>): (ps: seq<(string, string)>)
    requires MarksInOrder(s, ms)
    ensures |ps| == |ms|
  {
    seq(|ms|, i requires 0 <= i < |ms| => (ms[i].name, Strip(s[ms[i].end..BodyEnd(s, ms, i)])))
  }

  /** A candidate is named by a non-empty string that stands alone on its
      line at its recorded position. */
  predicate Witnessed(s: string, x: (string, nat))
  {
    x.0 != [] && CapsWord(x.0) && x.1 <= |s| && HeadingMatch(s, x.1, x.0).Some?
  }

  /** Every character belongs to the `CAPS_LINE` class. */
  predicate CapsWord(w: string)
  {
    forall i :: 0 <= i < |w| ==> IsCapsChar(w[i])
  }

  predicate AllWitnessed(s: string, d: Dict<nat>)
  {
    forall x :: x in d ==> Witnessed(s, x)
  }

  /** The heading marks of `s`: the candidates, sorted by position, matched
      again as one alternation. */
  function HeadingMarks(s: string): (ms: seq<Mark>)
    ensures MarksInOrder(s, ms)
  {
    HeadingNamesFacts(s);
    MarksFrom(s, HeadingNames(s), 0)
  }

  /** `ordered`: the candidates' names sorted by position. */
  function HeadingNames(s: string): (names: seq<string>)
    ensures forall h :: h in names <==> h in Keys(Candidates(s))
  {
    var c := Candidates(s);
    var ordered := SortByPosition(c);
    SameEntriesSameNames(c, ordered);
    Names(ordered)
  }

  /** Two lists with the same entries name the same keys. */
  lemma SameEntriesSameNames(d: Dict<nat>, xs: seq<(string, nat)>)
    requires multiset(xs) == multiset(d)
    ensures forall h :: h in Names(xs) <==> h in Keys(d)
  {
    forall h
      ensures h in Names(xs) <==> h in Keys(d)
    {
      if h in Names(xs) {
        var i :| 0 <= i < |xs| && Names(xs)[i] == h;
        assert xs[i] in multiset(d);
        var j :| 0 <= j < |d| && d[j] == xs[i];
        assert Keys(d)[j] == h;
      }
      if h in Keys(d) {
        var j :| 0 <= j < |d| && Keys(d)[j] == h;
        assert d[j] in multiset(xs);
        var i :| 0 <= i < |xs| && xs[i] == d[j];
        assert Names(xs)[i] == h;
      }
    }
  }

  /** A position where any candidate stands alone on its line lies inside
      some heading mark: `finditer` either matches the alternation there or
      has already passed it inside an earlier match. */
  lemma CandidateLineMarked(s: string, h: string, p: nat)
    requires p < |s| && h in Keys(Candidates(s)) && HeadingMatch(s, p, h).Some?
    ensures exists i :: 0 <= i < |HeadingMarks(s)| && HeadingMarks(s)[i].start <= p < HeadingMarks(s)[i].end
  {
    var hs := HeadingNames(s);
    HeadingNamesFacts(s);
        assert AlternationMatch(s, p, hs).Some?;
    assert !Unmarked(HeadingMarks(s), p);
  }

  lemma HeadingNamesFacts(s: string)
    ensures NonEmptyNames(HeadingNames(s))
    ensures forall i :: 0 <= i < |HeadingNames(s)| ==> CapsWord(HeadingNames(s)[i])
  {
    CandidatesWitnessed(s);
    var ordered := SortByPosition(Candidates(s));
    OrderedNamesWitnessed(s, Candidates(s), ordered);
  }

  /** `split_sections(full_text)`. */
  function Sections(fullText: string, isWord: char -> bool): (r: Dict<string>)
    ensures UniqueKeys(r)
  {
    var ft := NormalizeText(fullText, isWord);
    if ft == [] then []
    else if Candidates(ft) == [] then [(FullReportKey, ft)]
    else FromPairs(SectionPairs(ft, HeadingMarks(ft)))
  }

  /** A text with candidates is cut at its marks. */
  lemma SectionsFromPairs(s: string, isWord: char -> bool)
    requires NormalizeText(s, isWord) == s && s != [] && Candidates(s) != []
    ensures Sections(s, isWord) == FromPairs(SectionPairs(s, HeadingMarks(s)))
  {
  }

  /** The two loops of `split_sections` that fill `found_positions`. */
  method FindCandidates(ft: string) returns (found: Dict<nat>)
    ensures found == Candidates(ft)
  {
    found := [];
    for i := 0 to |KnownOrder|
      invariant found == KnownCandidates(ft, KnownOrder[..i])
    {
      KnownCandidatesStep(ft, KnownOrder, i);
      var m := FirstHeading(ft, KnownOrder[i], 0);
      if m.Some? {
        found := Put(found, KnownOrder[i], m.value);
      }
    }
    assert KnownOrder[..|KnownOrder|] == KnownOrder;
    var caps := CapsMatches(ft, 0);
    ghost var lines := CapsLines(ft);
    for j := 0 to |caps|
      invariant found == CapsCandidates(KnownCandidates(ft, KnownOrder), lines, j)
    {
      var (st, en) := caps[j];
      var cap := Strip(ft[st..en]);
      assert lines[j] == (cap, st);
      if cap != SpacedBanner {
        found := SetDefault(found, cap, st);
      }
    }
  }

  /** `split_sections(full_text)`, its loops proved to build `Sections`. */
  method SplitSections(fullText: string, isWord: char -> bool) returns (out: Dict<string>)
    ensures out == Sections(fullText, isWord)
  {
    var ft := NormalizeText(fullText, isWord);
    if ft == [] {
      return [];
    }
    var found := FindCandidates(ft);
    if found == [] {
      return [(FullReportKey, ft)];
    }
    var ordered := SortByPosition(found);
    HeadingNamesFacts(ft);
    var marks := MarksFrom(ft, Names(ordered), 0);
    assert marks == HeadingMarks(ft);
    out := CollectSections(ft, marks);
  }

  /** The last loop of `split_sections`: each mark's name is assigned the
      stripped text up to the next mark. */
  method CollectSections(ft: string, marks: seq<Mark>) returns (out: Dict<string>)
    requires MarksInOrder(ft, marks)
    ensures out == FromPairs(SectionPairs(ft, marks))
  {
    ghost var pairs := SectionPairs(ft, marks);
    out := [];
    for i := 0 to |marks|
      invariant out == FromPairs(pairs[..i])
    {
      FromPairsStep(pairs, i);
      var body := Strip(ft[marks[i].end..BodyEnd(ft, marks, i)]);
      out := Put(out, marks[i].name, body);
    }
    assert pairs[..|marks|] == pairs;
  }

  lemma KnownCandidatesStep(s: string, hs: seq<string>, i: nat)
    requires i < |hs|
    ensures KnownCandidates(s, hs[..i + 1]) ==
      match FirstHeading(s, hs[i], 0)
      case Some(p) => Put(KnownCandidates(s, hs[..i]), hs[i], p)
      case None => KnownCandidates(s, hs[..i])
  {
    assert hs[..i + 1][..i] == hs[..i];
  }

  /** A known heading that is found is assigned its position. */
  lemma KnownFound(s: string, hs: seq<string>, i: nat, d: Dict<nat>, p: nat)
    requires i < |hs| && KnownCandidates(s, hs[..i]) == d
    requires FirstHeading(s, hs[i], 0) == Some(p)
    ensures KnownCandidates(s, hs[..i + 1]) == Put(d, hs[i], p)
  {
    KnownCandidatesStep(s, hs, i);
  }

  /** A known heading that is not found leaves the candidates alone. */
  lemma KnownMissed(s: string, hs: seq<string>, i: nat, d: Dict<nat>)
    requires i < |hs| && KnownCandidates(s, hs[..i]) == d
    requires FirstHeading(s, hs[i], 0).None?
    ensures KnownCandidates(s, hs[..i + 1]) == d
  {
    KnownCandidatesStep(s, hs, i);
  }

  lemma FromPairsStep(ps: seq<(string, string)>, i: nat)
    requires i < |ps|
    ensures FromPairs(ps[..i + 1]) == Put(FromPairs(ps[..i]), ps[i].0, ps[i].1)
  {
    assert ps[..i + 1][..i] == ps[..i];
  }

  lemma CandidatesWitnessed(s: string)
    ensures AllWitnessed(s, Candidates(s))
  {
    var cs := CapsLines(s);
    assert NonEmptyNames(KnownOrder) by {
      assert forall i :: 0 <= i < |KnownOrder| ==> |KnownOrder[i]| >= 6;
    }
    KnownOrderCapitals();
    KnownWitnessed(s, KnownOrder);
    CapsLinesWitnessed(s);
    CapsWitnessed(s, KnownCandidates(s, KnownOrder), cs, |cs|);
  }

  /** The known headings are written in capitals. */
  lemma KnownOrderCapitals()
    ensures forall i :: 0 <= i < |KnownOrder| ==> CapsWord(KnownOrder[i])
  {
    forall i | 0 <= i < |KnownOrder|
      ensures CapsWord(KnownOrder[i])
    {
      var h := KnownOrder[i];
      assert forall j :: 0 <= j < |h| ==> 'A' <= h[j] <= 'Z';
    }
  }

  /** The eight known headings, by position. */
  lemma KnownOrderNames()
    ensures KnownOrder[0] == "DIGEST" && KnownOrder[3] == "DECISION"
    ensures KnownOrder[1] == "BACKGROUND" && KnownOrder[2] == "DISCUSSION"
    ensures KnownOrder[4] == "CONCLUSION" && KnownOrder[5] == "RECOMMENDATION"
    ensures KnownOrder[6] == "CONCLUSIONS" && KnownOrder[7] == "RECOMMENDATIONS"
  {
  }

  lemma {:induction false} KnownWitnessed(s: string, hs: seq<string>)
    requires NonEmptyNames(hs)
    requires forall i :: 0 <= i < |hs| ==> CapsWord(hs[i])
    ensures AllWitnessed(s, KnownCandidates(s, hs))
  {
    if hs != [] {
      KnownWitnessed(s, hs[..|hs| - 1]);
    }
  }

  lemma CapsWitnessed(s: string, d: Dict<nat>, cs: seq<(string, nat)>, n: nat)
    requires AllWitnessed(s, d) && n <= |cs|
    requires forall i :: 0 <= i < |cs| ==> Witnessed(s, cs[i])
    ensures AllWitnessed(s, CapsCandidates(d, cs, n))
  {
    var r := CapsCandidates(d, cs, n);
    forall x | x in r
      ensures Witnessed(s, x)
    {
      assert x in d || x in cs;
    }
  }

  /** Every line of capitals stands alone on its line, stripped. */
  lemma CapsLinesWitnessed(s: string)
    ensures forall i :: 0 <= i < |CapsLines(s)| ==> Witnessed(s, CapsLines(s)[i])
  {
    var ms := CapsMatches(s, 0);
    forall i | 0 <= i < |ms|
      ensures Witnessed(s, CapsLines(s)[i])
    {
      CapsMatchIsHeading(s, ms[i].0, ms[i].1);
    }
  }

  lemma CapsMatchIsHeading(s: string, p: nat, e: nat)
    requires p <= |s| && CapsMatch(s, p) == Some(e)
    ensures Witnessed(s, (Strip(s[p..e]), p))
  {
    assert !IsSpace(s[p]) by {
      assert IsCapsLead(s[p]);
    }
    CapsLineIsHeading(s, p, e);
  }

  /** A line of capitals, stripped, stands alone on its line where it was
      found, so the alternation can match it there. */
  lemma CapsLineIsHeading(s: string, p: nat, e: nat)
    requires p < e <= |s| && LineStart(s, p) && LineEnd(s, e) && !IsSpace(s[p])
    requires forall i :: p <= i < e ==> IsCapsChar(s[i])
    ensures Witnessed(s, (Strip(s[p..e]), p))
  {
    var t := s[p..e];
    var cap := Strip(t);
    StripFromWord(t);
    assert forall i :: 0 <= i < |cap| ==> cap[i] == s[p + i];
    var q := p + |cap|;
    assert s[p..q] == cap;
    assert s[q..e] == t[|cap|..];
    StandsAlone(s, p, cap, e);
  }

  /** A heading at a line start followed only by whitespace up to a line end
      is matched by `^h\s*$` there. */
  lemma StandsAlone(s: string, p: nat, h: string, e: nat)
    requires p + |h| <= e <= |s| && LineStart(s, p) && LineEnd(s, e)
    requires s[p..p + |h|] == h && AllSpace(s[p + |h|..e])
    ensures HeadingMatch(s, p, h).Some?
  {
    var q := p + |h|;
    assert StartsWith(s[p..], h) by {
      assert s[p..][..|h|] == s[p..q];
    }
    assert AllSpace(s[q..][..e - q]) by {
      assert s[q..][..e - q] == s[q..e];
    }
    SpacesPrefix(s[q..], e - q);
    LastLineEndFinds(s, q, q + LeadingSpaces(s[q..]), e);
  }

  /** A string that does not start with whitespace strips to a non-empty
      prefix followed only by whitespace. */
  lemma StripFromWord(t: string)
    requires t != [] && !IsSpace(t[0])
    ensures Strip(t) != [] && Strip(t) == t[..|Strip(t)|] && AllSpace(t[|Strip(t)|..])
  {
    assert LeadingSpaces(t) == 0;
    StripSlice(t);
  }

  lemma LastLineEndFinds(s: string, lo: nat, hi: nat, e: nat)
    requires lo <= e <= hi <= |s| && LineEnd(s, e)
    ensures LastLineEnd(s, lo, hi).Some?
  {
  }

  /** A string that starts with `k` spaces has at least `k` leading spaces. */
  lemma {:induction false} SpacesPrefix(t: string, k: nat)
    requires k <= |t| && AllSpace(t[..k])
    ensures LeadingSpaces(t) >= k
  {
    if k > 0 {
      assert IsSpace(t[0]);
      assert t[1..][..k - 1] == t[1..k];
      SpacesPrefix(t[1..], k - 1);
    }
  }

  lemma OrderedNamesWitnessed(s: string, d: Dict<nat>, ordered: seq<(string, nat)>)
    requires AllWitnessed(s, d)
    requires multiset(ordered) == multiset(d)
    ensures NonEmptyNames(Names(ordered))
    ensures forall i :: 0 <= i < |ordered| ==> Witnessed(s, ordered[i])
  {
    forall i | 0 <= i < |ordered|
      ensures Witnessed(s, ordered[i])
    {
      assert ordered[i] in multiset(ordered);
      assert ordered[i] in d;
      assert Witnessed(s, ordered[i]);
    }
  }

  /** No known heading stands alone on any line, and wherever `CAPS_LINE`
      matches, at any position, the match strips to the spaced banner. */
  predicate NoHeadingIn(s: string)
  {
    NoKnownHeading(s, KnownOrder) && OnlyBannerLines(s)
  }

  predicate OnlyBannerLines(s: string)
  {
    forall p :: 0 <= p < |s| && CapsMatch(s, p).Some? ==> Strip(s[p..CapsMatch(s, p).value]) == SpacedBanner
  }

  /** No heading candidate is found exactly when the text holds no heading. */
  lemma CandidatesEmptyIff(s: string)
    ensures Candidates(s) == [] <==> NoHeadingIn(s)
  {
    KnownEmptyIff(s, KnownOrder);
    var cs := CapsLines(s);
    CapsEmptyIff(KnownCandidates(s, KnownOrder), cs, |cs|);
    BannerLinesIff(s);
  }

  /** The lines of capitals `finditer` reports are all the banner exactly
      when every position where `CAPS_LINE` matches gives the banner: a
      position it skips lies inside a reported match, and inside the banner
      no line starts with a capital. */
  lemma BannerLinesIff(s: string)
    ensures AllBanners(CapsLines(s), |CapsLines(s)|) <==> OnlyBannerLines(s)
  {
    if AllBanners(CapsLines(s), |CapsLines(s)|) {
      ReportedBannersSuffice(s);
    } else {
      var ms, cs := CapsMatches(s, 0), CapsLines(s);
      var j :| 0 <= j < |cs| && cs[j].0 != SpacedBanner;
      assert CapsMatch(s, ms[j].0) == Some(ms[j].1);
    }
  }

  lemma ReportedBannersSuffice(s: string)
    requires AllBanners(CapsLines(s), |CapsLines(s)|)
    ensures OnlyBannerLines(s)
  {
    var ms, cs := CapsMatches(s, 0), CapsLines(s);
    forall p | 0 <= p < |s| && CapsMatch(s, p).Some?
      ensures Strip(s[p..CapsMatch(s, p).value]) == SpacedBanner
    {
      assert !Uncovered(ms, p);
      var i :| 0 <= i < |ms| && ms[i].0 <= p < ms[i].1;
      assert cs[i].0 == SpacedBanner;
      CoveredByBanner(s, ms[i].0, ms[i].1, p);
    }
  }

  lemma CoveredByBanner(s: string, a: nat, b: nat, p: nat)
    requires a <= p < b <= |s| && CapsMatch(s, a) == Some(b)
    requires Strip(s[a..b]) == SpacedBanner && CapsMatch(s, p).Some?
    ensures Strip(s[p..CapsMatch(s, p).value]) == SpacedBanner
  {
    if a < p {
      assert IsCapsLead(s[a]);
      BannerInterior(s, a, b, p);
      assert false;
    }
  }

  /** No line inside a banner match starts with a capital or a digit. */
  lemma BannerInterior(s: string, a: nat, b: nat, p: nat)
    requires a < p < b <= |s| && !IsSpace(s[a])
    requires Strip(s[a..b]) == SpacedBanner
    ensures !CapsStart(s, p)
  {
    var t := s[a..b];
    StripFromWord(t);
    var n := |SpacedBanner|;
    if p < a + n {
      BannerLineGoesOn(s, a, b, p);
    } else {
      assert s[p] == t[n..][p - a - n];
    }
  }

  /** Inside the banner itself there is no line break. */
  lemma BannerLineGoesOn(s: string, a: nat, b: nat, p: nat)
    requires a < p < b <= |s| && p < a + |SpacedBanner| <= b
    requires s[a..b][..|SpacedBanner|] == SpacedBanner
    ensures s[p - 1] != '\n'
  {
    var t := s[a..b];
    var k := p - 1 - a;
    assert s[p - 1] == t[k] == t[..|SpacedBanner|][k];
    BannerUnbroken();
  }

  lemma BannerUnbroken()
    ensures forall i :: 0 <= i < |SpacedBanner| ==> SpacedBanner[i] != '\n'
  {
  }

  /** None of the headings `hs` stands alone on any line of `s`. */
  predicate NoKnownHeading(s: string, hs: seq<string>)
  {
    forall i, p :: 0 <= i < |hs| && 0 <= p <= |s| ==> HeadingMatch(s, p, hs[i]).None?
  }

  lemma NoKnownHeadingSnoc(s: string, hs: seq<string>)
    requires hs != []
    ensures NoKnownHeading(s, hs) <==>
      NoKnownHeading(s, hs[..|hs| - 1]) && FirstHeading(s, hs[|hs| - 1], 0).None?
  {
    var init, h := hs[..|hs| - 1], hs[|hs| - 1];
    assert forall i :: 0 <= i < |init| ==> hs[i] == init[i];
    if FirstHeading(s, h, 0).Some? {
      var p := FirstHeading(s, h, 0).value;
      assert HeadingMatch(s, p, hs[|hs| - 1]).Some?;
    }
  }

  lemma {:induction false} KnownEmptyIff(s: string, hs: seq<string>)
    ensures KnownCandidates(s, hs) == [] <==> NoKnownHeading(s, hs)
  {
    if hs != [] {
      var init, h := hs[..|hs| - 1], hs[|hs| - 1];
      KnownEmptyIff(s, init);
      NoKnownHeadingSnoc(s, hs);
      match FirstHeading(s, h, 0)
      case Some(p) =>
        var r := Put(KnownCandidates(s, init), h, p);
        assert h in Keys(r);
      case None =>
    }
  }

  lemma {:induction false} CapsEmptyIff(d: Dict<nat>, cs: seq<(string, nat)>, n: nat)
    requires n <= |cs|
    ensures CapsCandidates(d, cs, n) == [] <==> d == [] && AllBanners(cs, n)
  {
    if n > 0 {
      CapsEmptyIff(d, cs, n - 1);
      var prev, c := CapsCandidates(d, cs, n - 1), cs[n - 1];
      if c.0 != SpacedBanner {
        SetDefaultNonEmpty(prev, c.0, c.1);
      }
      assert AllBanners(cs, n) <==> AllBanners(cs, n - 1) && c.0 == SpacedBanner;
    }
  }

  /** The first `n` lines of capitals are all the banner. */
  predicate AllBanners(cs: seq<(string, nat)>, n: nat)
    requires n <= |cs|
  {
    forall j :: 0 <= j < n ==> cs[j].0 == SpacedBanner
  }

  /** The stripped text of a heading mark is written in capitals when every
      alternative is. */
  lemma MarkNameCapitals(s: string, hs: seq<string>, m: Mark)
    requires MatchedMark(s, hs, m)
    requires forall i :: 0 <= i < |hs| ==> CapsWord(hs[i])
    ensures CapsWord(m.name)
  {
    var h := AlternationMatch(s, m.start, hs).value.0;
    var k :| 0 <= k < |hs| && hs[k] == h;
    HeadingTextCapitals(s, m.start, h, m.end);
    StripCapitals(s[m.start..m.end]);
  }

  /** A heading in capitals followed by whitespace is all capitals. */
  lemma HeadingTextCapitals(s: string, p: nat, h: string, e: nat)
    requires p <= |s| && HeadingMatch(s, p, h) == Some(e) && CapsWord(h)
    ensures CapsWord(s[p..e])
  {
    var t := s[p..e];
    assert forall i :: 0 <= i < |h| ==> t[i] == h[i];
    assert forall i :: |h| <= i < |t| ==> t[i] == s[p + |h|..e][i - |h|];
  }

  lemma StripCapitals(t: string)
    requires CapsWord(t)
    ensures CapsWord(Strip(t))
  {
    StripSlice(t);
    var n, r := LeadingSpaces(t), Strip(t);
    assert forall i :: 0 <= i < |r| ==> r[i] == t[n + i];
  }

  /** Every heading mark is named in capitals. */
  lemma HeadingMarksCapitals(s: string)
    ensures forall i :: 0 <= i < |HeadingMarks(s)| ==> CapsWord(HeadingMarks(s)[i].name)
  {
    HeadingNamesFacts(s);
    var ms := HeadingMarks(s);
    forall i | 0 <= i < |ms|
      ensures CapsWord(ms[i].name)
    {
      MarkNameCapitals(s, HeadingNames(s), ms[i]);
    }
  }

  /** `Full Report Text` holds a lower-case letter, so no heading is called that. */
  lemma FullReportKeyNotCapitals()
    ensures !CapsWord(FullReportKey)
  {
    assert FullReportKey[1] == 'u';
  }

  lemma {:induction false} SectionNamesCapitals(fullText: string, isWord: char -> bool)
    requires NormalizeText(fullText, isWord) != []
    requires !NoHeadingIn(NormalizeText(fullText, isWord))
    ensures forall k :: k in Keys(Sections(fullText, isWord)) ==> CapsWord(k)
  {
    var ft := NormalizeText(fullText, isWord);
    CandidatesEmptyIff(ft);
    assert Sections(fullText, isWord) == FromPairs(SectionPairs(ft, HeadingMarks(ft)));
    MarkedNamesCapitals(ft);
  }

  lemma MarkedNamesCapitals(s: string)
    ensures forall k :: k in Keys(FromPairs(SectionPairs(s, HeadingMarks(s)))) ==> CapsWord(k)
  {
    var ms := HeadingMarks(s);
    HeadingMarksCapitals(s);
    SectionPairsKeys(s, ms);
    FromPairsKeys(SectionPairs(s, ms));
    FirstOccurrencesMembers(MarkNames(ms));
  }

  function MarkNames(ms: seq<Mark>): (names: seq<string>)
    ensures |names| == |ms|
  {
    seq(|ms|, i requires 0 <= i < |ms| => ms[i].name)
  }

  /** The sections are named after the marks, in document order. */
  lemma SectionPairsKeys(s: string, ms: seq<Mark>)
    requires MarksInOrder(s, ms)
    ensures Keys(SectionPairs(s, ms)) == MarkNames(ms)
  {
  }

  /** A text with no heading comes back whole under `Full Report Text`, and
      that key appears exactly when the text has no heading. */
  lemma {:induction false} FullReportExactlyWithoutHeadings(fullText: string, isWord: char -> bool)
    requires NormalizeText(fullText, isWord) != []
    ensures var ft := NormalizeText(fullText, isWord);
      NoHeadingIn(ft) ==> Sections(fullText, isWord) == [(FullReportKey, ft)]
    ensures FullReportKey in Keys(Sections(fullText, isWord)) <==> NoHeadingIn(NormalizeText(fullText, isWord))
  {
    var ft := NormalizeText(fullText, isWord);
    if NoHeadingIn(ft) {
      NoHeadingSections(fullText, isWord);
      assert Keys([(FullReportKey, ft)])[0] == FullReportKey;
    } else {
      SectionNamesCapitals(fullText, isWord);
      FullReportKeyNotCapitals();
    }
  }

  lemma NoHeadingSections(fullText: string, isWord: char -> bool)
    requires NormalizeText(fullText, isWord) != []
    requires NoHeadingIn(NormalizeText(fullText, isWord))
    ensures Sections(fullText, isWord) == [(FullReportKey, NormalizeText(fullText, isWord))]
  {
    CandidatesEmptyIff(NormalizeText(fullText, isWord));
  }

  /** When the text has a heading, its sections follow the heading marks in
      document order: every mark is a match of the sorted alternation named
      by its stripped text, marks do not overlap, the alternation matches at
      no position that no mark covers, and each name keeps the slot of its
      first mark. */
  lemma SectionKeysInOrder(fullText: string, isWord: char -> bool)
    requires NormalizeText(fullText, isWord) != []
    requires !NoHeadingIn(NormalizeText(fullText, isWord))
    ensures var ft := NormalizeText(fullText, isWord);
      var ms := HeadingMarks(ft);
      && (forall i :: 0 <= i < |ms| ==> MatchedMark(ft, HeadingNames(ft), ms[i]))
      && (forall i :: 0 <= i < |ms| - 1 ==> ms[i].end <= ms[i + 1].start)
      && (forall q :: 0 <= q < |ft| && Unmarked(ms, q) ==> AlternationMatch(ft, q, HeadingNames(ft)).None?)
      && Keys(Sections(fullText, isWord)) == FirstOccurrences(MarkNames(ms))
  {
    var ft := NormalizeText(fullText, isWord);
    CandidatesEmptyIff(ft);
    var ms := HeadingMarks(ft);
    HeadingNamesFacts(ft);
    assert Sections(fullText, isWord) == FromPairs(SectionPairs(ft, ms));
    SectionPairsKeys(ft, ms);
    FromPairsKeys(SectionPairs(ft, ms));
  }

  /** A known heading standing alone on a line of the normalised text is
      never lost silently: the text is split, and the heading's line lies
      inside a mark whose name is a section.  That mark need not be the
      heading itself, since an earlier line of capitals may run over it. */
  lemma KnownHeadingMarked(fullText: string, isWord: char -> bool, h: string, p: nat)
    requires var ft := NormalizeText(fullText, isWord);
      p < |ft| && h in KnownOrder && HeadingMatch(ft, p, h).Some?
    ensures var ft := NormalizeText(fullText, isWord);
      var ms := HeadingMarks(ft);
      && FullReportKey !in Keys(Sections(fullText, isWord))
      && exists i :: 0 <= i < |ms| && ms[i].start <= p < ms[i].end && ms[i].name in Keys(Sections(fullText, isWord))
  {
    var ft := NormalizeText(fullText, isWord);
    assert FirstHeading(ft, h, 0).Some?;
    HeadingSplits(fullText, isWord);
    MarkedLineIsSection(ft, h, p);
  }

  /** A text with a known heading is split at its heading marks. */
  lemma HeadingSplits(fullText: string, isWord: char -> bool)
    requires exists h :: h in KnownOrder && FirstHeading(NormalizeText(fullText, isWord), h, 0).Some?
    ensures var ft := NormalizeText(fullText, isWord);
      Sections(fullText, isWord) == FromPairs(SectionPairs(ft, HeadingMarks(ft)))
  {
    var ft := NormalizeText(fullText, isWord);
    var h :| h in KnownOrder && FirstHeading(ft, h, 0).Some?;
    assert h in Keys(Candidates(ft));
  }

  lemma MarkedLineIsSection(s: string, h: string, p: nat)
    requires p < |s| && h in Keys(Candidates(s)) && HeadingMatch(s, p, h).Some?
    ensures var ms := HeadingMarks(s);
      var out := FromPairs(SectionPairs(s, ms));
      && FullReportKey !in Keys(out)
      && exists i :: 0 <= i < |ms| && ms[i].start <= p < ms[i].end && ms[i].name in Keys(out)
  {
    CandidateLineMarked(s, h, p);
    var ms := HeadingMarks(s);
    var i :| 0 <= i < |ms| && ms[i].start <= p < ms[i].end;
    MarkKeyed(s, ms, i);
    MarkedNamesCapitals(s);
    FullReportKeyNotCapitals();
  }

  /** Every mark's name is a section. */
  lemma MarkKeyed(s: string, ms: seq<Mark>, i: nat)
    requires MarksInOrder(s, ms) && i < |ms|
    ensures ms[i].name in Keys(FromPairs(SectionPairs(s, ms)))
  {
    SectionPairsKeys(s, ms);
    FromPairsKeys(SectionPairs(s, ms));
    FirstOccurrencesMembers(MarkNames(ms));
    assert MarkNames(ms)[i] == ms[i].name;
  }

  /** The section named by the last mark of a name holds the stripped text
      from that mark's end to the next mark's start, or to the end of the text:
      a repeated heading takes its last body. */
  lemma SectionBody(fullText: string, isWord: char -> bool, i: nat)
    requires NormalizeText(fullText, isWord) != []
    requires !NoHeadingIn(NormalizeText(fullText, isWord))
    requires var ms := HeadingMarks(NormalizeText(fullText, isWord));
      i < |ms| && forall j :: i < j < |ms| ==> ms[j].name != ms[i].name
    ensures var ft := NormalizeText(fullText, isWord);
      var ms := HeadingMarks(ft);
      Get(Sections(fullText, isWord), ms[i].name) == Some(Strip(ft[ms[i].end..BodyEnd(ft, ms, i)]))
  {
    var ft := NormalizeText(fullText, isWord);
    CandidatesEmptyIff(ft);
    var ms := HeadingMarks(ft);
    assert Sections(fullText, isWord) == FromPairs(SectionPairs(ft, ms));
    PairsBody(ft, ms, i);
  }

  /** The dictionary built from the marks' pairs holds, under a name that no
      later mark repeats, the body of that mark. */
  lemma PairsBody(ft: string, ms: seq<Mark>, i: nat)
    requires MarksInOrder(ft, ms) && i < |ms|
    requires forall j :: i < j < |ms| ==> ms[j].name != ms[i].name
    ensures Get(FromPairs(SectionPairs(ft, ms)), ms[i].name) == Some(Strip(ft[ms[i].end..BodyEnd(ft, ms, i)]))
  {
    var ps := SectionPairs(ft, ms);
    FromPairsGet(ps, ms[i].name);
    PairNames(ft, ms);
    LastValueAt(ps, i);
  }

  lemma PairNames(ft: string, ms: seq<Mark>)
    requires MarksInOrder(ft, ms)
    ensures forall j :: 0 <= j < |ms| ==> SectionPairs(ft, ms)[j].0 == ms[j].name
  {
    var ps := SectionPairs(ft, ms);
    forall j | 0 <= j < |ms|
      ensures ps[j].0 == ms[j].name
    {
    }
  }
}
