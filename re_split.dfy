/**
  `re.split(pattern='[?&=]', string=url)`: splitting a string at every
  occurrence of one of the three characters `?`, `&` and `=`.

  The pattern is a fixed one-character class, so the split is written out as
  a recursion over the string. Each occurrence of a delimiter is its own
  split point: two delimiters in a row, or a delimiter at either end of the
  string, produce an empty token.
 */
module ReSplit {

  /** The character class `[?&=]`. */
  predicate IsDelimiter(c: char) {
    c == '?' || c == '&' || c == '='
  }

  predicate DelimiterFree(s: string) {
    forall i :: 0 <= i < |s| ==> !IsDelimiter(s[i])
  }

  /** The delimiters of `s`, in the order in which they occur. */
  function Delimiters(s: string): (ds: seq<char>)
    ensures |ds| <= |s|
    ensures forall i :: 0 <= i < |ds| ==> IsDelimiter(ds[i])
  {
    if s == [] then []
    else (if IsDelimiter(s[0]) then [s[0]] else []) + Delimiters(s[1..])
  }

  /** A string has no delimiters exactly when it is delimiter-free. */
  lemma {:induction false} DelimitersEmpty(s: string)
    ensures Delimiters(s) == [] <==> DelimiterFree(s)
  {
    if s != [] {
      DelimitersEmpty(s[1..]);
      assert DelimiterFree(s) <==> !IsDelimiter(s[0]) && DelimiterFree(s[1..]) by {
        assert forall i :: 1 <= i < |s| ==> s[i] == s[1..][i - 1];
      }
    }
  }

  /**
    The tokens of `[x] + s`, given the tokens of `s`: a delimiter starts a
    new, empty first token; any other character joins the first token.
   */
  function Prepend(x: char, tokens: seq<string>): (r: seq<string>)
    requires |tokens| >= 1
    ensures |r| == if IsDelimiter(x) then |tokens| + 1 else |tokens|
  {
    if IsDelimiter(x) then [""] + tokens else [[x] + tokens[0]] + tokens[1..]
  }

  /**
    The tokens of `s`: the maximal delimiter-free pieces between the
    delimiters, including empty ones. There is always at least one token,
    and exactly one more token than there are delimiters in `s`.
   */
  function Split(s: string): (tokens: seq<string>)
    ensures |tokens| == |Delimiters(s)| + 1
  {
    if s == [] then [""] else Prepend(s[0], Split(s[1..]))
  }

  /** No token contains a delimiter. */
  lemma {:induction false} SplitTokensDelimiterFree(s: string)
    ensures forall i :: 0 <= i < |Split(s)| ==> DelimiterFree(Split(s)[i])
  {
    if s != [] {
      var x, rest := s[0], Split(s[1..]);
      SplitTokensDelimiterFree(s[1..]);
      if !IsDelimiter(x) {
        assert DelimiterFree([x] + rest[0]) by {
          assert forall i :: 1 <= i < |rest[0]| + 1 ==> ([x] + rest[0])[i] == rest[0][i - 1];
        }
        assert forall i :: 1 <= i < |rest| ==> Split(s)[i] == rest[i];
      } else {
        assert forall i :: 1 <= i < |rest| + 1 ==> Split(s)[i] == rest[i - 1];
      }
    }
  }

  /**
    The inverse of `Split`: the tokens glued back together, with the
    `i`-th delimiter between token `i` and token `i + 1`.
   */
  function Join(tokens: seq<string>, delims: seq<char>): string
    requires |tokens| == |delims| + 1
  {
    if delims == [] then tokens[0]
    else tokens[0] + [delims[0]] + Join(tokens[1..], delims[1..])
  }

  lemma {:induction false} DelimitersConcat(a: string, b: string)
    ensures Delimiters(a + b) == Delimiters(a) + Delimiters(b)
  {
    if a == [] {
      assert a + b == b;
    } else {
      assert (a + b)[0] == a[0];
      assert (a + b)[1..] == a[1..] + b;
      DelimitersConcat(a[1..], b);
    }
  }

  /** A string without delimiters is a single token. */
  lemma {:induction false} SplitDelimiterFree(s: string)
    requires DelimiterFree(s)
    ensures Split(s) == [s]
  {
    if s != [] {
      assert DelimiterFree(s[1..]) by {
        assert forall i :: 0 <= i < |s| - 1 ==> s[1..][i] == s[i + 1];
      }
      SplitDelimiterFree(s[1..]);
      assert [s[0]] + s[1..] == s;
    }
  }

  /** Prepending a character only touches the first token. */
  lemma PrependConcat(x: char, ra: seq<string>, rb: seq<string>)
    requires |ra| >= 1
    ensures Prepend(x, ra + rb) == Prepend(x, ra) + rb
  {
  }

  /** `Split` of a string with a known first character. */
  lemma SplitCons(x: char, s: string)
    ensures Split([x] + s) == Prepend(x, Split(s))
  {
  }

  /**
    Splitting distributes over a delimiter: the tokens of `a + [c] + b` are
    the tokens of `a` followed by the tokens of `b`.
   */
  lemma {:induction false} SplitAround(a: string, c: char, b: string)
    requires IsDelimiter(c)
    ensures Split(a + [c] + b) == Split(a) + Split(b)
  {
    if a == [] {
      assert a + [c] + b == [c] + b;
      SplitCons(c, b);
    } else {
      var x, a' := a[0], a[1..];
      assert a == [x] + a';
      assert a + [c] + b == [x] + (a' + [c] + b);
      SplitCons(x, a' + [c] + b);
      SplitAround(a', c, b);
      PrependConcat(x, Split(a'), Split(b));
    }
  }

  /** Two delimiters in a row put an empty token between the pieces around them. */
  lemma ConsecutiveDelimiters(a: string, c1: char, c2: char, b: string)
    requires IsDelimiter(c1) && IsDelimiter(c2)
    ensures Split(a + [c1, c2] + b) == Split(a) + [""] + Split(b)
  {
    var t := [c2] + b;
    assert a + [c1, c2] + b == a + [c1] + t;
    assert Split(a + [c1] + t) == Split(a) + Split(t) by {
      SplitAround(a, c1, t);
    }
    assert Split(t) == [""] + Split(b) by {
      SplitCons(c2, b);
    }
    assert Split(a) + ([""] + Split(b)) == Split(a) + [""] + Split(b);
  }

  /** Keeps the first character of the first token in front when joining. */
  lemma {:induction false} JoinConsHead(x: char, tokens: seq<string>, delims: seq<char>)
    requires |tokens| == |delims| + 1
    ensures Join([[x] + tokens[0]] + tokens[1..], delims) == [x] + Join(tokens, delims)
  {
  }

  /**
    Round trip one way: re-joining the tokens with the delimiters of `s`, in
    their original order, gives back `s` exactly.
   */
  lemma {:induction false} SplitJoin(s: string)
    ensures Join(Split(s), Delimiters(s)) == s
  {
    if s != [] {
      var rest := Split(s[1..]);
      SplitJoin(s[1..]);
      if IsDelimiter(s[0]) {
        assert ([""] + rest)[1..] == rest;
        assert Delimiters(s) == [s[0]] + Delimiters(s[1..]);
        assert Join(Split(s), Delimiters(s)) == "" + [s[0]] + s[1..];
      } else {
        assert Delimiters(s) == Delimiters(s[1..]);
        JoinConsHead(s[0], rest, Delimiters(s[1..]));
        assert [s[0]] + s[1..] == s;
      }
    }
  }

  /**
    Round trip the other way: delimiter-free tokens joined by delimiters
    split back into exactly those tokens, and the delimiters found are
    exactly those used.
   */
  lemma {:induction false} JoinSplit(tokens: seq<string>, delims: seq<char>)
    requires |tokens| == |delims| + 1
    requires forall i :: 0 <= i < |tokens| ==> DelimiterFree(tokens[i])
    requires forall i :: 0 <= i < |delims| ==> IsDelimiter(delims[i])
    ensures Split(Join(tokens, delims)) == tokens
    ensures Delimiters(Join(tokens, delims)) == delims
  {
    SplitDelimiterFree(tokens[0]);
    if delims != [] {
      var t0, d0, ts, ds := tokens[0], delims[0], tokens[1..], delims[1..];
      var tail := Join(ts, ds);
      assert Join(tokens, delims) == t0 + [d0] + tail;
      assert forall i :: 0 <= i < |ts| ==> DelimiterFree(ts[i]) by {
        assert forall i :: 0 <= i < |ts| ==> ts[i] == tokens[i + 1];
      }
      assert forall i :: 0 <= i < |ds| ==> IsDelimiter(ds[i]) by {
        assert forall i :: 0 <= i < |ds| ==> ds[i] == delims[i + 1];
      }
      JoinSplit(ts, ds);
      assert Split(t0 + [d0] + tail) == tokens by {
        SplitAround(t0, d0, tail);
        assert [t0] + ts == tokens;
      }
      assert Delimiters(t0 + [d0] + tail) == delims by {
        DelimitersConcat(t0 + [d0], tail);
        DelimitersConcat(t0, [d0]);
        DelimitersEmpty(t0);
        assert Delimiters([d0]) == [d0] by {
          assert [d0][1..] == [];
        }
        assert [] + [d0] + ds == delims;
      }
    }
  }
}
