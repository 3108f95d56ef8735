/** `upperFirst`: capitalise the first character of a string. */
module StringUtil {
  import opened Text

  /** The empty string is returned as is; otherwise the first character is
      upper-cased (ASCII letters only) and the rest is kept. */
  function UpperFirst(s: string): (r: string)
    ensures |r| == |s|
    ensures s == [] ==> r == []
    ensures s != [] ==> r[0] == UpperChar(s[0]) && r[1..] == s[1..]
  {
    if s == [] then s else [UpperChar(s[0])] + s[1..]
  }

  lemma UpperCharIdempotent(c: char)
    ensures UpperChar(UpperChar(c)) == UpperChar(c)
  {
  }

  /** Capitalising twice is the same as capitalising once. */
  lemma UpperFirstIdempotent(s: string)
    ensures UpperFirst(UpperFirst(s)) == UpperFirst(s)
  {
    if s != [] {
      UpperCharIdempotent(s[0]);
      assert UpperFirst(UpperFirst(s))[1..] == UpperFirst(s)[1..];
    }
  }

  /** A string that already starts with a non-lower-case character is unchanged. */
  lemma UpperFirstFixed(s: string)
    requires s != [] ==> !('a' <= s[0] <= 'z')
    ensures UpperFirst(s) == s
  {
    if s != [] {
      assert UpperFirst(s) == [s[0]] + s[1..];
    }
  }
}
