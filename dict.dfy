/** Python's insertion-ordered `dict`, as a sequence of (key, value) pairs with
    distinct keys.  Assigning to a present key keeps its slot; a new key goes
    at the end. */
module OrderedDict {
  import opened Optionals

  type Dict<V> = seq<(string, V)>

  function Keys<V>(d: Dict<V>): seq<string>
  {
    seq(|d|, i requires 0 <= i < |d| => d[i].0)
  }

  predicate UniqueKeys<V>(d: Dict<V>)
  {
    forall i, j :: 0 <= i < j < |d| ==> d[i].0 != d[j].0
  }

  /** The slot of `k`: the first pair whose key is `k`. */
  function IndexOf<V>(d: Dict<V>, k: string): (r: Option<nat>)
    ensures r.Some? ==> r.value < |d| && d[r.value].0 == k
    ensures r.Some? ==> forall j :: 0 <= j < r.value ==> d[j].0 != k
    ensures r.None? ==> forall j :: 0 <= j < |d| ==> d[j].0 != k
  {
    if d == [] then None
    else if d[0].0 == k then Some(0)
    else match IndexOf(d[1..], k)
      case Some(i) => Some(i + 1)
      case None => None
  }

  /** `d.get(k)`. */
  function Get<V>(d: Dict<V>, k: string): (r: Option<V>)
    ensures r.Some? <==> k in Keys(d)
  {
    match IndexOf(d, k)
    case Some(i) => assert Keys(d)[i] == k; Some(d[i].1)
    case None => None
  }

  /** The first pair with key `k` is the slot of `k`. */
  lemma IndexOfIsFirst<V>(d: Dict<V>, k: string, j: nat)
    requires j < |d| && d[j].0 == k
    requires forall i :: 0 <= i < j ==> d[i].0 != k
    ensures IndexOf(d, k) == Some(j)
  {
  }

  /** Two dictionaries with the same keys in the same slots find every key in
      the same slot. */
  lemma SameKeysSameIndex<V>(d: Dict<V>, e: Dict<V>, k: string)
    requires Keys(d) == Keys(e)
    ensures IndexOf(d, k) == IndexOf(e, k)
  {
    assert |d| == |Keys(d)| == |e|;
    assert forall j :: 0 <= j < |d| ==> d[j].0 == Keys(d)[j] == e[j].0;
  }

  /** `d[k] = v`. */
  function Put<V>(d: Dict<V>, k: string, v: V): (r: Dict<V>)
    ensures UniqueKeys(d) ==> UniqueKeys(r)
    ensures Keys(r) == if k in Keys(d) then Keys(d) else Keys(d) + [k]
    ensures Get(r, k) == Some(v)
    ensures forall x :: x in r ==> x in d || x == (k, v)
  {
    match IndexOf(d, k)
    case Some(i) =>
      assert Keys(d)[i] == k;
      var r := d[i := (k, v)];
      assert Keys(r) == Keys(d);
      SameKeysSameIndex(r, d, k);
      r
    case None =>
      var r := d + [(k, v)];
      assert Keys(r) == Keys(d) + [k];
      r
  }

  /** Assigning one key leaves every other key's value alone. */
  lemma PutOthers<V>(d: Dict<V>, k: string, v: V, k': string)
    requires k' != k
    ensures Get(Put(d, k, v), k') == Get(d, k')
  {
    var r := Put(d, k, v);
    if IndexOf(d, k).Some? {
      SameKeysSameIndex(r, d, k');
    } else {
      assert r == d + [(k, v)];
      if IndexOf(d, k').Some? {
        IndexOfIsFirst(r, k', IndexOf(d, k').value);
      } else {
        assert IndexOf(r, k').None?;
      }
    }
  }

  /** `d.setdefault(k, v)`, whose result the scraper ignores: only the
      dictionary matters. */
  function SetDefault<V>(d: Dict<V>, k: string, v: V): (r: Dict<V>)
    ensures UniqueKeys(d) ==> UniqueKeys(r)
    ensures Keys(r) == if k in Keys(d) then Keys(d) else Keys(d) + [k]
    ensures Get(r, k) == if k in Keys(d) then Get(d, k) else Some(v)
    ensures forall x :: x in r ==> x in d || x == (k, v)
  {
    if k in Keys(d) then d else Put(d, k, v)
  }

  lemma SetDefaultNonEmpty<V>(d: Dict<V>, k: string, v: V)
    ensures SetDefault(d, k, v) != []
  {
    assert k in Keys(SetDefault(d, k, v));
  }

  /** The dictionary built by assigning the pairs one after another. */
  function FromPairs<V>(ps: seq<(string, V)>): (d: Dict<V>)
    ensures UniqueKeys(d)
  {
    if ps == [] then [] else Put(FromPairs(ps[..|ps| - 1]), ps[|ps| - 1].0, ps[|ps| - 1].1)
  }

  /** A single pair gives a one-entry dictionary. */
  lemma FromOnePair<V>(a: (string, V))
    ensures FromPairs([a]) == [a]
  {
    assert [a][..0] == [];
    assert IndexOf<V>([], a.0).None?;
  }

  /** The keys of `ks`, each at its first occurrence. */
  function FirstOccurrences(ks: seq<string>): seq<string>
  {
    if ks == [] then []
    else
      var seen := FirstOccurrences(ks[..|ks| - 1]);
      if ks[|ks| - 1] in seen then seen else seen + [ks[|ks| - 1]]
  }

  /** The value of the last pair whose key is `k`. */
  function LastValue<V>(ps: seq<(string, V)>, k: string): Option<V>
  {
    if ps == [] then None
    else if ps[|ps| - 1].0 == k then Some(ps[|ps| - 1].1)
    else LastValue(ps[..|ps| - 1], k)
  }

  lemma {:induction false} FirstOccurrencesMembers(ks: seq<string>)
    ensures forall k :: k in FirstOccurrences(ks) <==> k in ks
  {
    if ks != [] {
      FirstOccurrencesMembers(ks[..|ks| - 1]);
      assert ks == ks[..|ks| - 1] + [ks[|ks| - 1]];
    }
  }

  /** Filling a dictionary pair by pair gives each key the slot of its first
      pair. */
  lemma {:induction false} FromPairsKeys<V>(ps: seq<(string, V)>)
    ensures Keys(FromPairs(ps)) == FirstOccurrences(Keys(ps))
  {
    if ps != [] {
      var init := ps[..|ps| - 1];
      FromPairsKeys(init);
      FirstOccurrencesMembers(Keys(init));
      assert Keys(ps)[..|ps| - 1] == Keys(init);
    }
  }

  /** ... and the value of its last pair. */
  lemma {:induction false} FromPairsGet<V>(ps: seq<(string, V)>, k: string)
    ensures Get(FromPairs(ps), k) == LastValue(ps, k)
  {
    if ps != [] {
      FromPairsGet(ps[..|ps| - 1], k);
      if ps[|ps| - 1].0 != k {
        PutOthers(FromPairs(ps[..|ps| - 1]), ps[|ps| - 1].0, ps[|ps| - 1].1, k);
      }
    }
  }

  /** The last pair under a key gives its value. */
  lemma {:induction false} LastValueAt<V>(ps: seq<(string, V)>, i: nat)
    requires i < |ps|
    requires forall j :: i < j < |ps| ==> ps[j].0 != ps[i].0
    ensures LastValue(ps, ps[i].0) == Some(ps[i].1)
  {
    if i < |ps| - 1 {
      var init := ps[..|ps| - 1];
      assert init[i] == ps[i];
      assert forall j :: i < j < |init| ==> init[j] == ps[j];
      LastValueAt(init, i);
    }
  }
}
