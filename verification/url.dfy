/** The part of WHATWG URL parsing the editor relies on: finding a URL's query and reading it
    through `searchParams`. Whether a string is a valid URL at all is left to a predicate the
    callers supply. */
module Url {
  import opened Utf8
  import FormUrlEncoded

  /** Everything before the first `#`. */
  function UpToFragment(s: string): (r: string)
    ensures |r| <= |s| && r == s[..|r|]
    ensures '#' !in r
    ensures |r| < |s| ==> s[|r|] == '#'
  {
    if |s| == 0 || s[0] == '#' then "" else [s[0]] + UpToFragment(s[1..])
  }

  /** The query of a URL: what follows the first `?` up to the next `#`; empty when there is no
      `?` or a `#` comes before it (the `?` then belongs to the fragment). */
  function Query(url: string): (q: string)
    ensures '#' !in q
    ensures '?' !in url ==> q == ""
  {
    if |url| == 0 || url[0] == '#' then ""
    else if url[0] == '?' then UpToFragment(url[1..])
    else Query(url[1..])
  }

  /** A URL written as a `?`-free prefix, `?` and a fragment-free query has exactly that query. */
  lemma {:induction false} QueryAfterMark(prefix: string, q: string)
    requires '?' !in prefix && '#' !in prefix && '#' !in q
    ensures Query(prefix + "?" + q) == q
  {
    if |prefix| == 0 {
      assert prefix + "?" + q == ['?'] + q;
      UpToFragmentWhole(q);
    } else {
      assert (prefix + "?" + q)[1..] == prefix[1..] + "?" + q;
      QueryAfterMark(prefix[1..], q);
    }
  }

  /** The same, stated as an implication so that a function body can use it unconditionally. */
  lemma QueryAfterMarkWhen(prefix: string, q: string)
    ensures '?' !in prefix && '#' !in prefix && '#' !in q ==> Query(prefix + "?" + q) == q
  {
    if '?' !in prefix && '#' !in prefix && '#' !in q {
      QueryAfterMark(prefix, q);
    }
  }

  lemma UpToFragmentWhole(s: string)
    requires '#' !in s
    ensures UpToFragment(s) == s
  {
  }

  /** `new URL(url).searchParams`: the query's UTF-8 bytes through the form-urlencoded parser.
      A URL without `?` has no parameters. */
  function SearchParams(url: string): (ps: seq<FormUrlEncoded.Pair>)
    ensures '?' !in url ==> ps == []
  {
    FormUrlEncoded.Parse(Encode(Query(url)))
  }

  /** A URL made of a mark-free prefix, `?` and a serialized list of plain-named pairs has exactly
      that list as its search parameters: reading undoes writing. */
  lemma SearchParamsOfSerialized(prefix: string, ps: seq<FormUrlEncoded.Pair>)
    requires '?' !in prefix && '#' !in prefix
    requires forall i :: 0 <= i < |ps| ==> FormUrlEncoded.IsPlainName(ps[i].0)
    ensures SearchParams(prefix + "?" + FormUrlEncoded.Serialize(ps)) == ps
  {
    FormUrlEncoded.SerializeChars(ps);
    QueryAfterMark(prefix, FormUrlEncoded.Serialize(ps));
    FormUrlEncoded.ParseSerialize(ps);
  }
}
