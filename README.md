# extract: URL parameter extraction, modelled in Dafny

`extract.py` takes a URL on the command line and prints its query parameters
as a Python dict. All of its logic is in `extract_url_parameters`, one
expression pipeline:

1. `re.split('[?&=]', url)` cuts the string at every `?`, `&` and `=`.
   Each occurrence is its own cut, so adjacent delimiters give empty tokens.
2. `_, *parameter_list = ...` throws away the first token, which is the text
   before the first delimiter.
3. `zip(it, it)` over one shared iterator pairs the remaining tokens as key,
   value, key, value, ... An odd last token has no partner and is dropped.
4. `dict(...)` builds the result. A repeated key keeps the position of its
   first occurrence and takes the value of its last one.

The model follows those steps, one module per concept. All of them are
pure functions with lemmas, as the Python is:

- `re_split.dfy`, module `ReSplit`: the split on the character class
  `[?&=]`, written as a recursion over the string. `Join` is its inverse,
  and the round trip is proved in both directions.
- `py_dict.dfy`, module `PyDict`: what `dict(pairs)` needs of Python's
  dict. A `Dict` holds the insertion order (`keys`) and the contents
  (`entries`). `FromPairs` inserts the pairs from left to right.
- `url_parameters.dfy`, module `UrlParameters`: the pairing (`Pairs`), the
  pair list of a URL (`Parameters`), `ExtractUrlParameters` and the
  properties of the whole routine.
- `url_parameter_cases.dfy`, module `UrlParameterCases`: the example from
  the help text and edge cases of the split and the pairing, as concrete
  inputs with their results.

The routine is total: `ExtractUrlParameters` has no precondition. The split
always yields at least one token, so the unpacking on line 29 cannot fail.
Nothing in the model knows about URLs. A `=` or `&` in the path is a
delimiter like any other, just as in the code (`DelimiterInPath`).

## Model

| member | source | states |
|---|---|---|
| `ReSplit.Delimiters` | extract.py:29 | the delimiters of a string in order: each one is `?`, `&` or `=`, and there are no more of them than characters |
| `ReSplit.DelimitersEmpty` | extract.py:29 | a string has no delimiters exactly when none of its characters is `?`, `&` or `=` |
| `ReSplit.Prepend` | extract.py:29 | the token count after one more character in front: one more for a delimiter, the same otherwise |
| `ReSplit.Split` | extract.py:29 | `re.split` on `[?&=]`: exactly one more token than there are delimiters, so never zero tokens |
| `ReSplit.SplitTokensDelimiterFree` | extract.py:29 | no token of the split contains `?`, `&` or `=` |
| `ReSplit.SplitDelimiterFree` | extract.py:29 | a string with no delimiter splits into the single token that is the whole string |
| `ReSplit.SplitAround` | extract.py:29 | each delimiter is a split point: the tokens of `a + [c] + b` are the tokens of `a` followed by those of `b` |
| `ReSplit.ConsecutiveDelimiters` | extract.py:29 | two delimiters in a row produce an empty token between the pieces around them |
| `ReSplit.SplitJoin` | extract.py:29 | re-joining the tokens with the original delimiters, in their original order, gives back the input exactly |
| `ReSplit.JoinSplit` | extract.py:29 | delimiter-free tokens joined by delimiters split back into exactly those tokens, and the same delimiters are found |
| `PyDict.Insert` | extract.py:32 | one dict insertion: the key takes the new value, no other entry changes, an existing key keeps its place and a new key goes last |
| `PyDict.FromPairs` | extract.py:31-32 | `dict(pairs)` is a well-formed dict: keys distinct, and the order lists exactly the keys |
| `PyDict.FromPairsKeys` | extract.py:31-32 | the keys of `dict(pairs)` are exactly the keys of the pairs |
| `PyDict.FromPairsLastWins` | extract.py:31-32 | last write wins: a key maps to the value of the last pair that carries it |
| `PyDict.FromPairsEntryOrigin` | extract.py:31-32 | every entry of `dict(pairs)` is one of the pairs |
| `PyDict.FromPairsOrder` | extract.py:32 | the keys of `dict(pairs)` are ordered by the position of their first occurrence among the pairs |
| `PyDict.FromPairsDistinct` | extract.py:31-32 | with no key repeated, `dict(pairs)` keeps the pairs' key order and maps each key to its own value |
| `UrlParameters.Pairs` | extract.py:30-32 | `zip(it, it)`: pair `i` is tokens `2i` and `2i+1`, and there are `n / 2` pairs, so an odd last token is dropped |
| `UrlParameters.PairsFlatten` | extract.py:30-32 | pairing undoes laying pairs out as key, value, key, value |
| `UrlParameters.FlattenPairs` | extract.py:30-32 | laying the pairs out again gives back all tokens for an even count, and all but the last for an odd count |
| `UrlParameters.Parameters` | extract.py:27-32 | with tokens `t`, the pairs are `(t[1], t[2])`, `(t[3], t[4])`, ...; there are `(n - 1) / 2` of them, and the head token `t[0]` is skipped |
| `UrlParameters.ExtractUrlParameters` | extract.py:25-33 | defined for every string, with no precondition, and always a well-formed dict |
| `UrlParameters.ExtractKeys` | extract.py:31-32 | a string is a key of the result exactly when it is the key of some pair |
| `UrlParameters.ExtractLastWins` | extract.py:31-32 | the key token `t[2i+1]` maps to `t[2i+2]` unless a later pair carries the same key |
| `UrlParameters.ExtractOrder` | extract.py:32 | the keys of the result are in the order of their first occurrence among the pairs |
| `UrlParameters.HeadDropped` | extract.py:27-29 | every key and value is a token after the first, so the text before the first delimiter appears only if it also occurs later |
| `UrlParameters.EntryFromLaterTokens` | extract.py:27-32 | the key and the value of any one entry are both tokens after the first |
| `UrlParameters.NoDelimiter` | extract.py:29-32 | a string with no `?`, `&` or `=` gives the empty dict |
| `UrlParameters.SplitBinding` | extract.py:29 | `k=v` with delimiter-free `k` and `v` splits into exactly `k` and `v` |
| `UrlParameters.SplitBindingThen` | extract.py:29 | `k=v&rest` splits into `k`, `v` and then the tokens of `rest` |
| `UrlParameters.QueryTokens` | extract.py:29 | `k1=v1&...&kn=vn` with delimiter-free keys and values splits into `k1, v1, ..., kn, vn` |
| `UrlParameters.QueryParameters` | extract.py:29-31 | a delimiter-free prefix, then `?k1=v1&...&kn=vn` with delimiter-free keys and values, pairs up as exactly `(k1, v1), ..., (kn, vn)`, repeated keys or not |
| `UrlParameters.WellFormedQuery` | extract.py:29-32 | a delimiter-free prefix, then `?k1=v1&...&kn=vn` with delimiter-free and distinct keys, gives exactly `{k1: v1, ..., kn: vn}` in that key order |
| `UrlParameters.EmptyValueLast` | extract.py:28-32 | `key=` as the last binding of a well-formed query gives `key` the empty value, whatever bindings come before it |
| `UrlParameters.EmptyValueAtEnd` | extract.py:28-32 | `prefix?key=` with a delimiter-free prefix and key gives exactly `{key: ""}` |
| `UrlParameters.QuestionMarkOnly` | extract.py:29-32 | a delimiter-free prefix followed by `?` gives the empty dict |
| `UrlParameterCases.EpilogExample` | extract.py:13 | the help-text URL gives `{param1: value1, param2: value2}` |
| `UrlParameterCases.OddTrailingToken` | extract.py:30-32 | `?a=1&b` gives `{a: 1}` because the unpaired `b` is dropped |
| `UrlParameterCases.DuplicateKey` | extract.py:31-32 | `?a=1&a=2` gives `{a: 2}` because the later value wins |
| `UrlParameterCases.EmptyValueBeforeDelimiter` | extract.py:28-29 | `?a=&b=2` gives `{a: "", b: 2}` |
| `UrlParameterCases.ShiftedPairing` | extract.py:29-32 | `?a&key=` gives `{a: key}`: without its `=`, `a` takes `key` as its value and the trailing empty token is dropped |
| `UrlParameterCases.NoQuery` | extract.py:29-32 | `https://example.com/path` gives the empty dict |
| `UrlParameterCases.BindingBeforeQuestionMark` | extract.py:29-32 | `a=b?` gives `{b: ""}`: a URL ending in `?` is not empty when a delimiter comes before the `?` |
| `UrlParameterCases.DelimiterInPath` | extract.py:29-32 | `https://h/a=b?c=d` gives `{b: c}`: the `=` in the path is a delimiter too and `d` is dropped |

## Left out

- `argument_parser` (extract.py:8-22): command-line parsing and its usage error when `--url` is missing. This is library plumbing with no logic of its own.
- `main` (extract.py:36-44): printing the URL and the dict's `repr` to standard output. This is I/O.
- The general regular-expression engine behind `re.split`. Only the fixed class `[?&=]` is used, so the split is written by hand. `maxsplit` and flags are not used by the code.
- Calling the routine twice on one string gives the same dict. This holds by construction, because Dafny functions are deterministic, so there is no lemma for it.
- URL semantics such as scheme or host checks, percent-decoding or multi-valued keys. The code does none of these.
