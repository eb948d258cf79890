/**
  `extract_url_parameters(url)`: split the URL at every `?`, `&` and `=`,
  throw away the text before the first delimiter, pair the remaining
  tokens as key, value, key, value, ... and build a dict from the pairs.

  Nothing here knows about URLs: a `=` or `&` in the path is a delimiter
  like any other, and an odd last token is dropped without complaint. The
  routine is total: every string gives a dict.
 */
module UrlParameters {
  import opened ReSplit
  import opened PyDict

  /**
    `zip(it, it)` over one shared iterator: tokens 0 and 1 form the first
    pair, tokens 2 and 3 the second, and so on. Pairing stops when the
    iterator is exhausted, so an odd last token is dropped.
   */
  function Pairs(tokens: seq<string>): (ps: seq<(string, string)>)
    ensures |ps| == |tokens| / 2
    ensures forall i :: 0 <= i < |ps| ==> ps[i] == (tokens[2 * i], tokens[2 * i + 1])
  {
    if |tokens| < 2 then [] else [(tokens[0], tokens[1])] + Pairs(tokens[2..])
  }

  /** The pairs laid out again as key, value, key, value, ... */
  function Flatten(ps: seq<(string, string)>): (tokens: seq<string>)
    ensures |tokens| == 2 * |ps|
  {
    if ps == [] then [] else [ps[0].0, ps[0].1] + Flatten(ps[1..])
  }

  /** Pairing undoes flattening. */
  lemma {:induction false} PairsFlatten(ps: seq<(string, string)>)
    ensures Pairs(Flatten(ps)) == ps
  {
    if ps != [] {
      PairsFlatten(ps[1..]);
      assert Flatten(ps)[2..] == Flatten(ps[1..]);
    }
  }

  /**
    Flattening undoes pairing except for the dropped token: what comes back
    is all the tokens when there is an even number of them, and all but the
    last when there is an odd number.
   */
  lemma {:induction false} FlattenPairs(tokens: seq<string>)
    ensures Flatten(Pairs(tokens)) == if |tokens| % 2 == 0 then tokens else tokens[..|tokens| - 1]
  {
    if |tokens| >= 2 {
      FlattenPairs(tokens[2..]);
      assert Pairs(tokens)[1..] == Pairs(tokens[2..]);
      if |tokens| % 2 == 0 {
        assert tokens == tokens[..2] + tokens[2..];
      } else {
        assert tokens[..|tokens| - 1] == tokens[..2] + tokens[2..][..|tokens| - 3];
      }
    }
  }

  /**
    The pair list of extract.py:32: with `t` the tokens of the URL, the pairs are
    `(t[1], t[2])`, `(t[3], t[4])`, ..., and there are `(|t| - 1) / 2` of them.
   */
  function Parameters(url: string): (ps: seq<(string, string)>)
    ensures |ps| == (|Split(url)| - 1) / 2
    ensures forall i :: 0 <= i < |ps| ==> ps[i] == (Split(url)[2 * i + 1], Split(url)[2 * i + 2])
  {
    // `_, *parameter_list = ...` cannot fail: there is always a first token.
    var tokens := Split(url);
    Pairs(tokens[1..])
  }

  /** `extract_url_parameters`: the dict built from the pair list. */
  function ExtractUrlParameters(url: string): (d: Dict)
    ensures Valid(d)
  {
    FromPairs(Parameters(url))
  }

  /** The keys of the result are exactly the tokens at key positions. */
  lemma ExtractKeys(url: string)
    ensures forall k :: k in ExtractUrlParameters(url).entries <==>
      exists i :: 0 <= i < |Parameters(url)| && Parameters(url)[i].0 == k
  {
    var ps := Parameters(url);
    FromPairsKeys(ps);
    forall k
      ensures k in KeyColumn(ps) <==> exists i :: 0 <= i < |ps| && ps[i].0 == k
    {
      if k in KeyColumn(ps) {
        var i :| 0 <= i < |ps| && KeyColumn(ps)[i] == k;
      }
    }
  }

  /**
    Last write wins: the key token of pair `i` maps to the value token of
    pair `i` unless a later pair carries the same key.
   */
  lemma ExtractLastWins(url: string, i: nat)
    requires i < |Parameters(url)|
    requires forall j :: i < j < |Parameters(url)| ==> Parameters(url)[j].0 != Parameters(url)[i].0
    ensures Split(url)[2 * i + 1] in ExtractUrlParameters(url).entries
    ensures ExtractUrlParameters(url).entries[Split(url)[2 * i + 1]] == Split(url)[2 * i + 2]
  {
    FromPairsLastWins(Parameters(url), i);
  }

  /** The keys of the result are in the order of their first occurrence. */
  lemma ExtractOrder(url: string)
    ensures FirstOccurrenceOrder(ExtractUrlParameters(url).keys, KeyColumn(Parameters(url)))
  {
    FromPairsOrder(Parameters(url));
  }

  /**
    The head token is dropped: every key and every value of the result is a
    token after the first, so the text before the first delimiter shows up
    in the result only if it also occurs further on.
   */
  lemma HeadDropped(url: string)
    ensures forall k :: k in ExtractUrlParameters(url).entries ==>
      k in Split(url)[1..] && ExtractUrlParameters(url).entries[k] in Split(url)[1..]
    ensures Split(url)[0] in ExtractUrlParameters(url).entries ==> Split(url)[0] in Split(url)[1..]
  {
    forall k | k in ExtractUrlParameters(url).entries
      ensures k in Split(url)[1..] && ExtractUrlParameters(url).entries[k] in Split(url)[1..]
    {
      EntryFromLaterTokens(url, k);
    }
  }

  /** One entry of the result: both its key and its value are tokens after the first. */
  lemma EntryFromLaterTokens(url: string, k: string)
    requires k in ExtractUrlParameters(url).entries
    ensures k in Split(url)[1..] && ExtractUrlParameters(url).entries[k] in Split(url)[1..]
  {
    var t, ps, d := Split(url), Parameters(url), ExtractUrlParameters(url);
    FromPairsEntryOrigin(ps, k);
    var i :| 0 <= i < |ps| && ps[i] == (k, d.entries[k]);
    assert t[1..][2 * i] == t[2 * i + 1];
    assert t[1..][2 * i + 1] == t[2 * i + 2];
  }

  /** A string with none of `?`, `&`, `=` gives the empty dict. */
  lemma NoDelimiter(url: string)
    requires DelimiterFree(url)
    ensures ExtractUrlParameters(url) == Empty
  {
    SplitDelimiterFree(url);
  }

  /** `k1=v1&k2=v2&...&kn=vn`, or the empty string when there are no pairs. */
  function Query(kvs: seq<(string, string)>): string
    decreases |kvs|
  {
    if kvs == [] then ""
    else if |kvs| == 1 then kvs[0].0 + "=" + kvs[0].1
    else kvs[0].0 + "=" + kvs[0].1 + "&" + Query(kvs[1..])
  }

  /** A URL made of a prefix, `?`, then the query. */
  function QueryUrl(prefix: string, kvs: seq<(string, string)>): string {
    prefix + "?" + Query(kvs)
  }

  predicate WellFormedPairs(kvs: seq<(string, string)>) {
    forall i :: 0 <= i < |kvs| ==> DelimiterFree(kvs[i].0) && DelimiterFree(kvs[i].1)
  }

  /** `k=v` splits into `k` and `v`. */
  lemma SplitBinding(k: string, v: string)
    requires DelimiterFree(k) && DelimiterFree(v)
    ensures Split(k + "=" + v) == [k, v]
  {
    SplitDelimiterFree(k);
    SplitDelimiterFree(v);
    SplitAround(k, '=', v);
  }

  /** `k=v&rest` splits into `k`, `v` and the tokens of `rest`. */
  lemma SplitBindingThen(k: string, v: string, rest: string)
    requires DelimiterFree(k) && DelimiterFree(v)
    ensures Split(k + "=" + v + "&" + rest) == [k, v] + Split(rest)
  {
    var tail := v + ['&'] + rest;
    assert k + "=" + v + "&" + rest == k + ['='] + tail;
    assert Split(tail) == [v] + Split(rest) by {
      SplitDelimiterFree(v);
      SplitAround(v, '&', rest);
    }
    assert Split(k + ['='] + tail) == [k] + Split(tail) by {
      SplitDelimiterFree(k);
      SplitAround(k, '=', tail);
    }
    assert [k] + ([v] + Split(rest)) == [k, v] + Split(rest);
  }

  /** The tokens of a query are its keys and values, in order. */
  lemma {:induction false} QueryTokens(kvs: seq<(string, string)>)
    requires kvs != []
    requires WellFormedPairs(kvs)
    ensures Split(Query(kvs)) == Flatten(kvs)
  {
    if |kvs| == 1 {
      SplitBinding(kvs[0].0, kvs[0].1);
    } else {
      assert WellFormedPairs(kvs[1..]) by {
        assert forall i :: 0 <= i < |kvs| - 1 ==> kvs[1..][i] == kvs[i + 1];
      }
      QueryTokens(kvs[1..]);
      SplitBindingThen(kvs[0].0, kvs[0].1, Query(kvs[1..]));
    }
  }

  /**
    The pairs of a well-formed query: a delimiter-free prefix, then
    `?k1=v1&...&kn=vn` with delimiter-free keys and values, pair up as
    exactly `(k1, v1), ..., (kn, vn)`, whether or not a key repeats.
   */
  lemma QueryParameters(prefix: string, kvs: seq<(string, string)>)
    requires DelimiterFree(prefix)
    requires WellFormedPairs(kvs)
    ensures Parameters(QueryUrl(prefix, kvs)) == kvs
  {
    var url := QueryUrl(prefix, kvs);
    SplitDelimiterFree(prefix);
    SplitAround(prefix, '?', Query(kvs));
    assert url == prefix + ['?'] + Query(kvs);
    assert Split(url)[1..] == Split(Query(kvs));
    if kvs == [] {
      assert Split(Query(kvs)) == [""];
    } else {
      QueryTokens(kvs);
      PairsFlatten(kvs);
    }
  }

  /**
    A well-formed query with no key repeated gives exactly
    `{k1: v1, ..., kn: vn}`, with the keys in that order.
   */
  lemma WellFormedQuery(prefix: string, kvs: seq<(string, string)>)
    requires DelimiterFree(prefix)
    requires WellFormedPairs(kvs)
    requires Distinct(KeyColumn(kvs))
    ensures Parameters(QueryUrl(prefix, kvs)) == kvs
    ensures ExtractUrlParameters(QueryUrl(prefix, kvs)).keys == KeyColumn(kvs)
    ensures forall i :: 0 <= i < |kvs| ==> ExtractUrlParameters(QueryUrl(prefix, kvs)).entries[kvs[i].0] == kvs[i].1
  {
    QueryParameters(prefix, kvs);
    FromPairsDistinct(kvs);
  }

  /**
    `key=` as the last binding of a well-formed query gives `key` the empty
    value, whatever bindings come before it and even when they carry `key`
    too. (Where the bindings before it are not well formed, the tokens can
    pair up differently: in `?a&key=` the `key` token is a value.)
   */
  lemma EmptyValueLast(prefix: string, kvs: seq<(string, string)>, key: string)
    requires DelimiterFree(prefix) && DelimiterFree(key)
    requires WellFormedPairs(kvs)
    ensures key in ExtractUrlParameters(QueryUrl(prefix, kvs + [(key, "")])).entries
    ensures ExtractUrlParameters(QueryUrl(prefix, kvs + [(key, "")])).entries[key] == ""
  {
    var all := kvs + [(key, "")];
    assert WellFormedPairs(all) by {
      assert forall i :: 0 <= i < |kvs| ==> all[i] == kvs[i];
      assert DelimiterFree("");
    }
    QueryParameters(prefix, all);
    FromPairsLastWins(all, |all| - 1);
  }

  /** `prefix?key=`, with a delimiter-free prefix and key, gives exactly `{key: ""}`. */
  lemma EmptyValueAtEnd(prefix: string, key: string)
    requires DelimiterFree(prefix) && DelimiterFree(key)
    ensures ExtractUrlParameters(prefix + "?" + key + "=") == Dict([key], map[key := ""])
  {
    var kvs := [(key, "")];
    assert QueryUrl(prefix, kvs) == prefix + "?" + key + "=" by {
      assert Query(kvs) == key + "=" + "";
    }
    assert WellFormedPairs(kvs) by {
      assert DelimiterFree("");
    }
    assert Distinct(KeyColumn(kvs));
    WellFormedQuery(prefix, kvs);
    var d := ExtractUrlParameters(QueryUrl(prefix, kvs));
    assert d.keys == [key];
    assert d.entries == map[key := ""];
  }

  /** A delimiter-free prefix followed by `?` gives the empty dict. */
  lemma QuestionMarkOnly(prefix: string)
    requires DelimiterFree(prefix)
    ensures ExtractUrlParameters(prefix + "?") == Empty
  {
    WellFormedQuery(prefix, []);
    assert QueryUrl(prefix, []) == prefix + "?";
  }
}
