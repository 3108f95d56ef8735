/**
 * URL helpers: `formatQuery`, ECMAScript `encodeURI` (section 19.2.6.4 of
 * ECMA-262) as it applies to query values, and the immutable `URLBuilder`.
 */
module Url {
  import opened Wrappers

  // ----- encodeURI -----

  predicate IsAlnum(c: char)
  {
    'a' <= c <= 'z' || 'A' <= c <= 'Z' || '0' <= c <= '9'
  }

  /** The characters `encodeURI` leaves alone: letters, digits, the marks
      `-_.!~*'()`, the reserved set `;/?:@&=+$,` and `#`. */
  predicate Unescaped(c: char)
  {
    IsAlnum(c) || c in "-_.!~*'();/?:@&=+$,#"
  }

  function HexDigit(n: nat): (c: char)
    requires n < 16
    ensures IsAlnum(c)
  {
    "0123456789ABCDEF"[n]
  }

  /** The UTF-8 bytes of one Unicode scalar value. */
  function Utf8(c: char): (bytes: seq<nat>)
    ensures 1 <= |bytes| <= 4
    ensures forall i :: 0 <= i < |bytes| ==> bytes[i] < 256
  {
    var v := c as int;
    if v < 0x80 then [v]
    else if v < 0x800 then [0xC0 + v / 64, 0x80 + v % 64]
    else if v < 0x10000 then [0xE0 + v / 4096, 0x80 + (v / 64) % 64, 0x80 + v % 64]
    else [0xF0 + v / 262144, 0x80 + (v / 4096) % 64, 0x80 + (v / 64) % 64, 0x80 + v % 64]
  }

  /** `%XY` for each byte. */
  function PercentBytes(bytes: seq<nat>): (r: string)
    requires forall i :: 0 <= i < |bytes| ==> bytes[i] < 256
    ensures |r| == 3 * |bytes|
    ensures forall i :: 0 <= i < |r| ==> r[i] == '%' || IsAlnum(r[i])
  {
    if bytes == [] then []
    else ['%', HexDigit(bytes[0] / 16), HexDigit(bytes[0] % 16)] + PercentBytes(bytes[1..])
  }

  function EncodeChar(c: char): (r: string)
    ensures Unescaped(c) ==> r == [c]
    ensures !Unescaped(c) ==> |r| >= 3 && forall i :: 0 <= i < |r| ==> r[i] == '%' || IsAlnum(r[i])
  {
    if Unescaped(c) then [c] else PercentBytes(Utf8(c))
  }

  function EncodeURI(s: string): string
  {
    if s == [] then [] else EncodeChar(s[0]) + EncodeURI(s[1..])
  }

  /** Encoding never shortens a string, and lengthens it exactly when some
      character needs escaping. */
  lemma {:induction false} EncodeURILength(s: string)
    ensures |EncodeURI(s)| >= |s|
    ensures |EncodeURI(s)| == |s| <==> forall i :: 0 <= i < |s| ==> Unescaped(s[i])
    decreases |s|
  {
    if s != [] {
      EncodeURILength(s[1..]);
      assert forall i :: 1 <= i < |s| ==> s[i] == s[1..][i - 1];
    }
  }

  /** `encodeURI` is the identity exactly on strings made of unescaped
      characters. */
  lemma EncodeURIIdentity(s: string)
    ensures EncodeURI(s) == s <==> forall i :: 0 <= i < |s| ==> Unescaped(s[i])
  {
    EncodeURILength(s);
    if forall i :: 0 <= i < |s| ==> Unescaped(s[i]) {
      UnescapedFixed(s);
    }
  }

  lemma {:induction false} UnescapedFixed(s: string)
    requires forall i :: 0 <= i < |s| ==> Unescaped(s[i])
    ensures EncodeURI(s) == s
    decreases |s|
  {
    if s != [] {
      UnescapedFixed(s[1..]);
    }
  }

  /** The output holds only unescaped characters and `%`; an `&` appears in
      the output exactly when it appears in the input. */
  lemma {:induction false} EncodeURIAlphabet(s: string)
    ensures forall i :: 0 <= i < |EncodeURI(s)| ==> Unescaped(EncodeURI(s)[i]) || EncodeURI(s)[i] == '%'
    ensures '&' in EncodeURI(s) <==> '&' in s
    decreases |s|
  {
    if s != [] {
      EncodeURIAlphabet(s[1..]);
      var h := EncodeChar(s[0]);
      assert EncodeURI(s) == h + EncodeURI(s[1..]);
      assert '&' in h <==> s[0] == '&';
      assert '&' in s <==> s[0] == '&' || '&' in s[1..];
    }
  }

  // ----- formatQuery -----

  /** A query object as its `for..in` enumeration: each key with the text of
      its value (`'' + value`). */
  type Query = seq<(string, string)>

  function PairText(p: (string, string)): string
  {
    p.0 + "=" + EncodeURI(p.1)
  }

  /** `pairs.join(sep)`. */
  function Join(xs: seq<string>, sep: char): string
  {
    if xs == [] then []
    else if |xs| == 1 then xs[0]
    else xs[0] + [sep] + Join(xs[1..], sep)
  }

  /** `s.split(sep)` for a one-character separator. */
  function SplitOn(s: string, sep: char): (r: seq<string>)
    ensures |r| >= 1
  {
    if s == [] then [[]]
    else
      var rest := SplitOn(s[1..], sep);
      if s[0] == sep then [[]] + rest else [[s[0]] + rest[0]] + rest[1..]
  }

  /** What `formatQuery` returns: nothing for an empty query, else `?` and
      the pairs joined by `&`. */
  function QueryString(query: Query): string
  {
    if query == [] then "" else "?" + Join(seq(|query|, i requires 0 <= i < |query| => PairText(query[i])), '&')
  }

  /** `formatQuery`: collects `key=encodeURI(value)` in a loop, then joins. */
  method FormatQuery(query: Query) returns (r: string)
    ensures r == QueryString(query)
  {
    var pairs: seq<string> := [];
    var i := 0;
    while i < |query|
      invariant 0 <= i <= |query|
      invariant |pairs| == i
      invariant forall j :: 0 <= j < i ==> pairs[j] == PairText(query[j])
    {
      var (key, value) := query[i];
      pairs := pairs + [key + "=" + EncodeURI(value)];
      i := i + 1;
    }
    if |pairs| == 0 {
      return "";
    }
    assert pairs == seq(|query|, i requires 0 <= i < |query| => PairText(query[i]));
    r := "?" + Join(pairs, '&');
  }

  lemma {:induction false} SplitOnPlain(s: string, sep: char)
    requires sep !in s
    ensures SplitOn(s, sep) == [s]
    decreases |s|
  {
    if s != [] {
      SplitOnPlain(s[1..], sep);
      assert [s[0]] + s[1..] == s;
    }
  }

  lemma {:induction false} SplitOnCut(a: string, sep: char, b: string)
    requires sep !in a
    ensures SplitOn(a + [sep] + b, sep) == [a] + SplitOn(b, sep)
    decreases |a|
  {
    var s := a + [sep] + b;
    if a == [] {
      assert s[1..] == b;
    } else {
      assert s[1..] == a[1..] + [sep] + b;
      SplitOnCut(a[1..], sep, b);
      assert [a[0]] + a[1..] == a;
    }
  }

  /** Splitting a join gives the pieces back when no piece holds the separator. */
  lemma {:induction false} SplitJoin(xs: seq<string>, sep: char)
    requires xs != []
    requires forall i :: 0 <= i < |xs| ==> sep !in xs[i]
    ensures SplitOn(Join(xs, sep), sep) == xs
    decreases |xs|
  {
    if |xs| == 1 {
      SplitOnPlain(xs[0], sep);
    } else {
      SplitJoin(xs[1..], sep);
      SplitOnCut(xs[0], sep, Join(xs[1..], sep));
    }
  }

  /** An empty query formats to the empty string; otherwise the text after
      `?` splits on `&` back into one `key=encodeURI(value)` piece per pair,
      in order, as long as no key or value holds an `&` (which `encodeURI`
      leaves unescaped). */
  lemma QueryStringPieces(query: Query)
    requires forall i :: 0 <= i < |query| ==> '&' !in query[i].0 && '&' !in query[i].1
    ensures query == [] ==> QueryString(query) == ""
    ensures query != [] ==> QueryString(query)[0] == '?'
    ensures query != [] ==>
              SplitOn(QueryString(query)[1..], '&') == seq(|query|, i requires 0 <= i < |query| => PairText(query[i]))
  {
    if query != [] {
      var pieces := seq(|query|, i requires 0 <= i < |query| => PairText(query[i]));
      forall i | 0 <= i < |query|
        ensures '&' !in pieces[i]
      {
        EncodeURIAlphabet(query[i].1);
        assert pieces[i] == query[i].0 + "=" + EncodeURI(query[i].1);
      }
      SplitJoin(pieces, '&');
      assert QueryString(query)[1..] == Join(pieces, '&');
    }
  }

  // ----- URLBuilder -----

  const DefaultBase: string := "https://"

  /** The argument shapes of `build`: nothing (or a nullish first argument),
      a page with an optional query, or a query alone. */
  datatype BuildArgument = NoArgument | PageAndQuery(page: string, query: Option<Query>) | QueryAlone(fields: Query)

  /** An immutable prefix to which parts and queries are appended. */
  datatype URLBuilder = URLBuilder(base: string)
  {
    /** A new builder whose base is this base followed by `part`. */
    function Add(part: string): (b: URLBuilder)
      ensures b.base == base + part
    {
      URLBuilder(base + part)
    }

    function Build(arg: BuildArgument): (url: string)
      ensures |url| >= |base| && url[..|base|] == base
    {
      match arg
      case NoArgument => base
      case PageAndQuery(page, query) =>
        base + page + QueryString(match query case Some(q) => q case None => [])
      case QueryAlone(query) => base + QueryString(query)
    }
  }

  /** Adding a part and building without arguments is building with that part
      as the page; an empty or missing query adds nothing. */
  lemma AddThenBuild(b: URLBuilder, part: string)
    ensures b.Add(part).Build(NoArgument) == b.Build(PageAndQuery(part, None))
    ensures b.Build(PageAndQuery(part, Some([]))) == b.Build(PageAndQuery(part, None)) == b.base + part
    ensures b.Build(QueryAlone([])) == b.Build(NoArgument)
  {
  }

  /** Building a page from an extended builder is building the longer page. */
  lemma AddAssociates(b: URLBuilder, part: string, page: string, query: Option<Query>)
    ensures b.Add(part).Build(PageAndQuery(page, query)) == b.Build(PageAndQuery(part + page, query))
  {
  }
}
