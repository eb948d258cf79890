/**
  Concrete inputs and the dict `extract_url_parameters` gives for each:
  the example from the command-line help text and edge cases of the split
  and the pairing.
  Most cases first fix the tokens of their input through the split/join
  round trip, then build the dict from the pairs.
 */
module UrlParameterCases {
  import opened ReSplit
  import opened PyDict
  import opened UrlParameters

  /** The tokens of a string known to be `Join(t, ds)`. */
  lemma TokensOf(url: string, t: seq<string>, ds: seq<char>)
    requires |t| == |ds| + 1 && Join(t, ds) == url
    requires forall i :: 0 <= i < |t| ==> DelimiterFree(t[i])
    requires forall i :: 0 <= i < |ds| ==> IsDelimiter(ds[i])
    ensures Split(url) == t
  {
    JoinSplit(t, ds);
  }

  /** `dict([(k, v)])`. */
  lemma DictOfOne(k: string, v: string)
    ensures FromPairs([(k, v)]) == Dict([k], map[k := v])
  {
  }

  /** `dict([(k1, v1), (k2, v2)])`, for equal and for different keys. */
  lemma DictOfTwo(k1: string, v1: string, k2: string, v2: string)
    ensures k1 == k2 ==> FromPairs([(k1, v1), (k2, v2)]) == Dict([k1], map[k1 := v2])
    ensures k1 != k2 ==> FromPairs([(k1, v1), (k2, v2)]) == Dict([k1, k2], map[k1 := v1, k2 := v2])
  {
    var ps := [(k1, v1), (k2, v2)];
    assert ps[..1] == [(k1, v1)];
    DictOfOne(k1, v1);
    assert FromPairs(ps) == Insert(Dict([k1], map[k1 := v1]), k2, v2);
    if k1 == k2 {
      assert map[k1 := v1][k1 := v2] == map[k1 := v2];
    } else {
      assert [k1] + [k2] == [k1, k2];
    }
  }

  lemma EpilogQuery()
    ensures Query([("param1", "value1"), ("param2", "value2")]) == "param1=value1&param2=value2"
  {
  }

  lemma EpilogUrl()
    ensures QueryUrl("https://www.thisurl.com/get", [("param1", "value1"), ("param2", "value2")])
      == "https://www.thisurl.com/get?param1=value1&param2=value2"
  {
    EpilogQuery();
  }

  lemma EpilogPairs()
    ensures Parameters("https://www.thisurl.com/get?param1=value1&param2=value2")
      == [("param1", "value1"), ("param2", "value2")]
  {
    var prefix := "https://www.thisurl.com/get";
    var kvs := [("param1", "value1"), ("param2", "value2")];
    assert DelimiterFree(prefix) by {
      assert forall i :: 0 <= i < |prefix| ==> !IsDelimiter(prefix[i]);
    }
    assert WellFormedPairs(kvs) by {
      assert DelimiterFree("param1") && DelimiterFree("value1");
      assert DelimiterFree("param2") && DelimiterFree("value2");
    }
    assert Distinct(KeyColumn(kvs)) by {
      assert KeyColumn(kvs) == ["param1", "param2"];
    }
    EpilogUrl();
    WellFormedQuery(prefix, kvs);
  }

  /** The example URL shown in the program's help text. */
  lemma EpilogExample()
    ensures ExtractUrlParameters("https://www.thisurl.com/get?param1=value1&param2=value2")
      == Dict(["param1", "param2"], map["param1" := "value1", "param2" := "value2"])
  {
    EpilogPairs();
    DictOfTwo("param1", "value1", "param2", "value2");
  }

  lemma OddTrailingTokenSplit()
    ensures Split("?a=1&b") == ["", "a", "1", "b"]
  {
    TokensOf("?a=1&b", ["", "a", "1", "b"], ['?', '=', '&']);
  }

  /** `?a=1&b`: the unpaired `b` is dropped. */
  lemma OddTrailingToken()
    ensures ExtractUrlParameters("?a=1&b") == Dict(["a"], map["a" := "1"])
  {
    OddTrailingTokenSplit();
    assert Parameters("?a=1&b") == [("a", "1")];
    DictOfOne("a", "1");
  }

  lemma DuplicateKeySplit()
    ensures Split("?a=1&a=2") == ["", "a", "1", "a", "2"]
  {
    TokensOf("?a=1&a=2", ["", "a", "1", "a", "2"], ['?', '=', '&', '=']);
  }

  lemma DuplicateKeyPairs()
    ensures Parameters("?a=1&a=2") == [("a", "1"), ("a", "2")]
  {
    DuplicateKeySplit();
  }

  /** `?a=1&a=2`: the later value wins. */
  lemma DuplicateKey()
    ensures ExtractUrlParameters("?a=1&a=2") == Dict(["a"], map["a" := "2"])
  {
    DuplicateKeyPairs();
    DictOfTwo("a", "1", "a", "2");
  }

  lemma EmptyValueBeforeDelimiterSplit()
    ensures Split("?a=&b=2") == ["", "a", "", "b", "2"]
  {
    TokensOf("?a=&b=2", ["", "a", "", "b", "2"], ['?', '=', '&', '=']);
  }

  lemma EmptyValueBeforeDelimiterPairs()
    ensures Parameters("?a=&b=2") == [("a", ""), ("b", "2")]
  {
    EmptyValueBeforeDelimiterSplit();
  }

  /** `?a=&b=2`: `a=` followed by a delimiter gives `a` the empty value. */
  lemma EmptyValueBeforeDelimiter()
    ensures ExtractUrlParameters("?a=&b=2") == Dict(["a", "b"], map["a" := "", "b" := "2"])
  {
    EmptyValueBeforeDelimiterPairs();
    DictOfTwo("a", "", "b", "2");
  }

  /** No query component and no stray delimiter: the empty dict. */
  lemma NoQuery()
    ensures ExtractUrlParameters("https://example.com/path") == Empty
  {
    NoDelimiter("https://example.com/path");
  }

  lemma DelimiterInPathSplit()
    ensures Split("https://h/a=b?c=d") == ["https://h/a", "b", "c", "d"]
  {
    TokensOf("https://h/a=b?c=d", ["https://h/a", "b", "c", "d"], ['=', '?', '=']);
  }

  /**
    A `=` in the path is a delimiter too: `https://h/a=b?c=d` splits into
    `https://h/a`, `b`, `c`, `d`, so the only pair maps `b` to `c` and `d`
    is dropped.
   */
  lemma DelimiterInPath()
    ensures ExtractUrlParameters("https://h/a=b?c=d") == Dict(["b"], map["b" := "c"])
  {
    DelimiterInPathSplit();
    assert Parameters("https://h/a=b?c=d") == [("b", "c")];
    DictOfOne("b", "c");
  }

  lemma ShiftedPairingSplit()
    ensures Split("?a&key=") == ["", "a", "key", ""]
  {
    TokensOf("?a&key=", ["", "a", "key", ""], ['?', '&', '=']);
  }

  /**
    `?a&key=`: the key `a` has no `=`, so the pairing shifts by one. `key`
    becomes the value of `a`, and the trailing empty token is dropped.
   */
  lemma ShiftedPairing()
    ensures ExtractUrlParameters("?a&key=") == Dict(["a"], map["a" := "key"])
  {
    ShiftedPairingSplit();
    assert Parameters("?a&key=") == [("a", "key")];
    DictOfOne("a", "key");
  }

  lemma BindingBeforeQuestionMarkSplit()
    ensures Split("a=b?") == ["a", "b", ""]
  {
    TokensOf("a=b?", ["a", "b", ""], ['=', '?']);
  }

  /**
    `a=b?`: a URL ending in `?` need not give the empty dict. The `=` before
    the `?` is a delimiter, so `b` becomes a key with the empty value.
   */
  lemma BindingBeforeQuestionMark()
    ensures ExtractUrlParameters("a=b?") == Dict(["b"], map["b" := ""])
  {
    BindingBeforeQuestionMarkSplit();
    assert Parameters("a=b?") == [("b", "")];
    DictOfOne("b", "");
  }
}
