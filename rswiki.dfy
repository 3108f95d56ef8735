/**
 * Page-path helpers of the wiki client: the page of a skill, and the file a
 * fetched page is cached under. Fetching, caching and parsing are I/O and
 * are not part of this model.
 */
module RsWiki {
  import opened Text
  import opened StringUtil
  import Url

  const WikiUrl: string := "https://runescape.wiki"
  const CacheDir: string := "./pages/"
  const PageMarker: string := "/w/"

  /** The builder every wiki link is made with. */
  const WikiUrlBuilder: Url.URLBuilder := Url.URLBuilder(WikiUrl)

  /** The wiki page of a skill: `/w/` and the capitalised skill name. */
  function GetSkillPage(skill: string): (page: string)
    ensures |page| == |skill| + 3
    ensures page[..3] == PageMarker && page[3..] == UpperFirst(skill)
  {
    PageMarker + UpperFirst(skill)
  }

  /** Every `/` replaced by `_-_`. */
  function ReplaceSlash(s: string): (r: string)
    ensures '/' !in r
  {
    if s == [] then []
    else (if s[0] == '/' then "_-_" else [s[0]]) + ReplaceSlash(s[1..])
  }

  /** The file name of a page: the last piece of `split('/w/')`, slashes
      replaced, lower-cased. */
  function FormatPagePath(page: string): string
  {
    ToLower(ReplaceSlash(SplitLast(page, PageMarker)))
  }

  function GetCachePath(page: string): string
  {
    CacheDir + FormatPagePath(page) + ".html"
  }

  // ----- lemmas -----

  lemma LowerCharSlash(c: char)
    ensures LowerChar(c) == '/' <==> c == '/'
  {
  }

  /** A page's file name never holds a `/`, so every cache file sits directly
      in the cache directory. */
  lemma FormatPagePathNoSlash(page: string)
    ensures '/' !in FormatPagePath(page)
    ensures '/' !in GetCachePath(page)[|CacheDir|..]
  {
    var r := ReplaceSlash(SplitLast(page, PageMarker));
    var f := FormatPagePath(page);
    forall i | 0 <= i < |f|
      ensures f[i] != '/'
    {
      LowerCharSlash(r[i]);
    }
    assert GetCachePath(page)[|CacheDir|..] == f + ".html";
  }

  /** Replacing slashes and lower-casing can be done in either order. */
  lemma {:induction false} ReplaceSlashToLower(s: string)
    ensures ToLower(ReplaceSlash(s)) == ReplaceSlash(ToLower(s))
    decreases |s|
  {
    if s != [] {
      ReplaceSlashToLower(s[1..]);
      assert ToLower(s)[1..] == ToLower(s[1..]);
      LowerCharSlash(s[0]);
      var head := if s[0] == '/' then "_-_" else [s[0]];
      assert ReplaceSlash(s) == head + ReplaceSlash(s[1..]);
      assert ToLower(head + ReplaceSlash(s[1..])) == ToLower(head) + ToLower(ReplaceSlash(s[1..]));
    }
  }

  /** Pages whose last pieces differ only in letter case share a cache file. */
  lemma CachePathIgnoresCase(p: string, q: string)
    requires ToLower(SplitLast(p, PageMarker)) == ToLower(SplitLast(q, PageMarker))
    ensures GetCachePath(p) == GetCachePath(q)
  {
    ReplaceSlashToLower(SplitLast(p, PageMarker));
    ReplaceSlashToLower(SplitLast(q, PageMarker));
  }

  /** Pages that differ only in a slash-free prefix before `/w/` share a
      cache file. */
  lemma CachePathIgnoresPrefix(a: string, b: string, t: string)
    requires '/' !in a && '/' !in b
    ensures GetCachePath(a + PageMarker + t) == GetCachePath(b + PageMarker + t)
    ensures GetCachePath(a + PageMarker + t) == GetCachePath(PageMarker + t)
  {
    SplitLastDropsPrefix(a, PageMarker, t);
    SplitLastDropsPrefix(b, PageMarker, t);
    SplitLastDropsPrefix([], PageMarker, t);
    assert [] + PageMarker + t == PageMarker + t;
  }

  /** `split` cuts at non-overlapping occurrences from the left, so in
      `/w/w/x` the second, overlapping `/w/` is not a cut and the file name
      is `w_-_x`, not `x`. */
  lemma OverlappingMarker()
    ensures SplitLast("/w/w/x", PageMarker) == "w/x"
    ensures FormatPagePath("/w/w/x") == "w_-_x"
  {
    assert "/w/w/x"[..3] == PageMarker;
    assert "/w/w/x"[3..] == "w/x";
    assert !Occurs(PageMarker, "w/x") by {
      assert "w/x"[..3][0] != PageMarker[0];
      assert "w/x"[1..] == "/x";
      assert !Occurs(PageMarker, "/x");
    }
    assert SplitLast("w/x", PageMarker) == "w/x";
    assert ReplaceSlash("w/x") == "w_-_x" by {
      assert "w/x"[1..] == "/x";
      assert "/x"[1..] == "x";
      assert "x"[1..] == [];
    }
  }

  /** The last piece of a skill's page is the capitalised skill name, for
      any name without a slash. */
  lemma SkillPageSlug(skill: string)
    requires '/' !in skill
    ensures SplitLast(GetSkillPage(skill), PageMarker) == UpperFirst(skill)
  {
    var u := UpperFirst(skill);
    forall i | 0 <= i < |u|
      ensures u[i] != '/'
    {
      if i > 0 {
        assert u[i] == skill[i];
      }
    }
    SplitLastDropsPrefix([], PageMarker, u);
    assert [] + PageMarker + u == GetSkillPage(skill);
    AbsentCharNoOccurs(PageMarker, u);
    NoSeparatorSplitLast(u, PageMarker);
  }
}
