/**
  The part of Python's `dict` that `dict(pairs)` relies on: a mapping from
  string keys to string values that remembers the order in which its keys
  were first inserted. `dict(pairs)` inserts the pairs from left to right,
  so a repeated key keeps the position of its first occurrence and takes
  the value of its last one.
 */
module PyDict {

  /**
    `keys` is the insertion order, `entries` the key/value contents.
    `Valid` ties the two together.
   */
  datatype Dict = Dict(keys: seq<string>, entries: map<string, string>)

  predicate Distinct(s: seq<string>) {
    forall i, j :: 0 <= i < j < |s| ==> s[i] != s[j]
  }

  /** Every key occurs once in the order, and exactly the keys do. */
  predicate Valid(d: Dict) {
    && Distinct(d.keys)
    && (forall k :: k in d.entries ==> k in d.keys)
    && (forall k :: k in d.keys ==> k in d.entries)
  }

  const Empty: Dict := Dict([], map[])

  /**
    `d[k] = v`. A key already present keeps its place in the order and
    takes the new value; a new key goes to the end. No other key changes.
   */
  function Insert(d: Dict, k: string, v: string): (r: Dict)
    requires Valid(d)
    ensures Valid(r)
    ensures k in r.entries && r.entries[k] == v
    ensures forall k' :: k' != k ==>
      (k' in r.entries <==> k' in d.entries) && (k' in d.entries ==> r.entries[k'] == d.entries[k'])
    ensures k in d.entries ==> r.keys == d.keys
    ensures k !in d.entries ==> |r.keys| == |d.keys| + 1 && r.keys[..|d.keys|] == d.keys && r.keys[|d.keys|] == k
  {
    Dict(if k in d.entries then d.keys else d.keys + [k], d.entries[k := v])
  }

  /** `dict(ps)`: the pairs inserted one after another, from the left. */
  function FromPairs(ps: seq<(string, string)>): (d: Dict)
    ensures Valid(d)
  {
    if ps == [] then Empty
    else
      var last := ps[|ps| - 1];
      Insert(FromPairs(ps[..|ps| - 1]), last.0, last.1)
  }

  /** The key of each pair, in order. */
  function KeyColumn(ps: seq<(string, string)>): (ks: seq<string>)
    ensures |ks| == |ps|
    ensures forall i :: 0 <= i < |ps| ==> ks[i] == ps[i].0
  {
    seq(|ps|, i requires 0 <= i < |ps| => ps[i].0)
  }

  /** The position of the first occurrence of `x` in `s`. */
  function IndexOf(s: seq<string>, x: string): (i: nat)
    requires x in s
    ensures i < |s| && s[i] == x
    ensures forall j :: 0 <= j < i ==> s[j] != x
  {
    if s[0] == x then 0 else 1 + IndexOf(s[1..], x)
  }

  lemma {:induction false} IndexOfAppend(s: seq<string>, y: string, x: string)
    requires x in s
    ensures IndexOf(s + [y], x) == IndexOf(s, x)
  {
    var i := IndexOf(s, x);
    var i' := IndexOf(s + [y], x);
    assert (s + [y])[i] == x;
    assert s[i'] == x;
  }

  /** The keys of `dict(ps)` are exactly the keys of the pairs. */
  lemma {:induction false} FromPairsKeys(ps: seq<(string, string)>)
    ensures forall k :: k in FromPairs(ps).entries <==> k in KeyColumn(ps)
  {
    if ps != [] {
      var init := ps[..|ps| - 1];
      FromPairsKeys(init);
      assert KeyColumn(ps) == KeyColumn(init) + [ps[|ps| - 1].0];
    }
  }

  /**
    Last write wins: the value of a key is the value of the last pair that
    carries it.
   */
  lemma {:induction false} FromPairsLastWins(ps: seq<(string, string)>, i: nat)
    requires i < |ps|
    requires forall j :: i < j < |ps| ==> ps[j].0 != ps[i].0
    ensures ps[i].0 in FromPairs(ps).entries
    ensures FromPairs(ps).entries[ps[i].0] == ps[i].1
  {
    var init := ps[..|ps| - 1];
    if i < |ps| - 1 {
      FromPairsLastWins(init, i);
    }
  }

  /** Every entry of `dict(ps)` comes from some pair of `ps`. */
  lemma {:induction false} FromPairsEntryOrigin(ps: seq<(string, string)>, k: string)
    requires k in FromPairs(ps).entries
    ensures exists i :: 0 <= i < |ps| && ps[i] == (k, FromPairs(ps).entries[k])
  {
    var last := ps[|ps| - 1];
    var init := ps[..|ps| - 1];
    if k != last.0 {
      FromPairsEntryOrigin(init, k);
      var i :| 0 <= i < |init| && init[i] == (k, FromPairs(init).entries[k]);
      assert ps[i] == init[i];
    } else {
      assert ps[|ps| - 1] == (k, FromPairs(ps).entries[k]);
    }
  }

  /**
    `keys` lists distinct members of `col`, ordered by the position at
    which each first occurs in `col`.
   */
  predicate FirstOccurrenceOrder(keys: seq<string>, col: seq<string>) {
    && (forall k :: k in keys ==> k in col)
    && (forall i, j :: 0 <= i < j < |keys| ==> IndexOf(col, keys[i]) < IndexOf(col, keys[j]))
  }

  /** Occurring again later does not move a key that already occurs. */
  lemma OrderAppendSeen(keys: seq<string>, col: seq<string>, k: string)
    requires FirstOccurrenceOrder(keys, col)
    requires k in col
    ensures FirstOccurrenceOrder(keys, col + [k])
  {
    forall x | x in keys
      ensures x in col + [k] && IndexOf(col + [k], x) == IndexOf(col, x)
    {
      IndexOfAppend(col, k, x);
    }
  }

  /** A key occurring for the first time comes after every earlier key. */
  lemma OrderAppendNew(keys: seq<string>, col: seq<string>, k: string)
    requires FirstOccurrenceOrder(keys, col)
    requires k !in col
    ensures FirstOccurrenceOrder(keys + [k], col + [k])
  {
    var keys', col' := keys + [k], col + [k];
    forall x | x in keys
      ensures IndexOf(col', x) == IndexOf(col, x)
    {
      IndexOfAppend(col, k, x);
    }
    assert IndexOf(col', k) == |col|;
    forall i, j | 0 <= i < j < |keys'|
      ensures IndexOf(col', keys'[i]) < IndexOf(col', keys'[j])
    {
      assert keys'[i] == keys[i];
      if j < |keys| {
        assert keys'[j] == keys[j];
      }
    }
  }

  /**
    Insertion order: the keys of `dict(ps)` are ordered by the position at
    which each first occurs among the pairs.
   */
  lemma {:induction false} FromPairsOrder(ps: seq<(string, string)>)
    ensures FirstOccurrenceOrder(FromPairs(ps).keys, KeyColumn(ps))
  {
    if ps != [] {
      var init := ps[..|ps| - 1];
      var k := ps[|ps| - 1].0;
      var d0 := FromPairs(init);
      FromPairsOrder(init);
      FromPairsKeys(init);
      assert KeyColumn(ps) == KeyColumn(init) + [k];
      if k in d0.entries {
        OrderAppendSeen(d0.keys, KeyColumn(init), k);
      } else {
        OrderAppendNew(d0.keys, KeyColumn(init), k);
      }
    }
  }

  /**
    With no key repeated, `dict(ps)` keeps the pairs in their order and maps
    each key to its own value.
   */
  lemma {:induction false} FromPairsDistinct(ps: seq<(string, string)>)
    requires Distinct(KeyColumn(ps))
    ensures FromPairs(ps).keys == KeyColumn(ps)
    ensures forall i :: 0 <= i < |ps| ==> FromPairs(ps).entries[ps[i].0] == ps[i].1
  {
    if ps != [] {
      var init := ps[..|ps| - 1];
      assert KeyColumn(ps) == KeyColumn(init) + [ps[|ps| - 1].0];
      FromPairsDistinct(init);
      forall i | 0 <= i < |ps|
        ensures FromPairs(ps).entries[ps[i].0] == ps[i].1
      {
        FromPairsLastWins(ps, i);
      }
    }
  }
}
