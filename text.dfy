/**
 * String helpers the TypeScript code gets from the language: number-to-text
 * conversion (`${n}`), `split(sep).pop()`, ASCII `toLowerCase`/`toUpperCase`,
 * and code-unit lexicographic comparison.
 */
module Text {

  predicate IsDigit(c: char) { '0' <= c <= '9' }

  function DigitChar(d: nat): (c: char)
    requires d < 10
    ensures IsDigit(c)
  {
    "0123456789"[d]
  }

  function DigitValue(c: char): (d: nat)
    requires IsDigit(c)
    ensures d < 10
  {
    (c as int - '0' as int) as nat
  }

  /** Decimal digits of a natural number, no leading zeros. */
  function NatToString(n: nat): (r: string)
    ensures |r| >= 1
    ensures forall i :: 0 <= i < |r| ==> IsDigit(r[i])
    decreases n
  {
    if n < 10 then [DigitChar(n)] else NatToString(n / 10) + [DigitChar(n % 10)]
  }

  /** JavaScript's conversion of an integer-valued number to text. */
  function IntToString(n: int): string
  {
    if n < 0 then "-" + NatToString(-n) else NatToString(n)
  }

  function ParseNat(s: string): nat
    requires |s| >= 1 && forall i :: 0 <= i < |s| ==> IsDigit(s[i])
  {
    if |s| == 1 then DigitValue(s[0])
    else ParseNat(s[..|s| - 1]) * 10 + DigitValue(s[|s| - 1])
  }

  lemma {:induction false} ParseNatToString(n: nat)
    ensures ParseNat(NatToString(n)) == n
    decreases n
  {
    if n >= 10 {
      var s := NatToString(n);
      assert s[..|s| - 1] == NatToString(n / 10);
      ParseNatToString(n / 10);
    }
  }

  lemma NatToStringInjective(a: nat, b: nat)
    requires NatToString(a) == NatToString(b)
    ensures a == b
  {
    ParseNatToString(a);
    ParseNatToString(b);
  }

  /** Different integers are written differently. */
  lemma IntToStringInjective(a: int, b: int)
    requires IntToString(a) == IntToString(b)
    ensures a == b
  {
    SignShows(a);
    SignShows(b);
    if a < 0 && b < 0 {
      var sa, sb := IntToString(a), IntToString(b);
      assert sa[1..] == NatToString(-a);
      assert sb[1..] == NatToString(-b);
      NatToStringInjective(-a, -b);
    } else if a >= 0 && b >= 0 {
      NatToStringInjective(a, b);
    }
  }

  /** The text starts with a minus sign exactly for negative numbers. */
  lemma SignShows(n: int)
    ensures |IntToString(n)| >= 1
    ensures IntToString(n)[0] == '-' <==> n < 0
  {
    if n >= 0 {
      assert IsDigit(NatToString(n)[0]);
    }
  }

  lemma IntToStringHasNo(n: int, c: char)
    requires c != '-' && !IsDigit(c)
    ensures c !in IntToString(n)
  {
    if n < 0 {
      assert IntToString(n) == "-" + NatToString(-n);
    }
  }

  // ----- split(sep).pop() -----

  /** Whether `sep` occurs anywhere in `s`. */
  predicate Occurs(sep: string, s: string)
    decreases |s|
  {
    |s| >= |sep| && (s[..|sep|] == sep || (|s| > 0 && Occurs(sep, s[1..])))
  }

  /** The last piece of `s.split(sep)`: the scan goes left to right, cutting at
      each occurrence of `sep` it meets and continuing after it. */
  function SplitLast(s: string, sep: string): string
    requires |sep| > 0
    decreases |s|
  {
    if |s| >= |sep| && s[..|sep|] == sep then SplitLast(s[|sep|..], sep)
    else if s == [] then []
    else if Occurs(sep, s[1..]) then SplitLast(s[1..], sep)
    else s
  }

  predicate IsSuffix(r: string, s: string)
  {
    |r| <= |s| && s[|s| - |r|..] == r
  }

  /** The last piece is a suffix of the input and holds no separator. */
  lemma {:induction false} SplitLastSpec(s: string, sep: string)
    requires |sep| > 0
    ensures IsSuffix(SplitLast(s, sep), s)
    ensures !Occurs(sep, SplitLast(s, sep))
    decreases |s|
  {
    if |s| >= |sep| && s[..|sep|] == sep {
      SplitLastSpec(s[|sep|..], sep);
    } else if s == [] {
    } else if Occurs(sep, s[1..]) {
      SplitLastSpec(s[1..], sep);
    } else {
      assert !Occurs(sep, s);
    }
  }

  /** Without a separator, the last piece is the whole string. */
  lemma NoSeparatorSplitLast(s: string, sep: string)
    requires |sep| > 0 && !Occurs(sep, s)
    ensures SplitLast(s, sep) == s
  {
    if s != [] {
      assert !(|s| >= |sep| && s[..|sep|] == sep);
      assert !Occurs(sep, s[1..]);
    }
  }

  /** Text before a separator that holds no copy of the separator's first
      character cannot change the last piece. */
  lemma {:induction false} SplitLastDropsPrefix(a: string, sep: string, t: string)
    requires |sep| > 0
    requires forall i :: 0 <= i < |a| ==> a[i] != sep[0]
    ensures SplitLast(a + sep + t, sep) == SplitLast(t, sep)
    decreases |a|
  {
    var s := a + sep + t;
    if a == [] {
      assert s == sep + t;
      assert s[..|sep|] == sep;
      assert s[|sep|..] == t;
    } else {
      assert s[0] == a[0] != sep[0];
      assert !(s[..|sep|] == sep);
      assert s[1..] == a[1..] + sep + t;
      assert s[1..][|a| - 1..][..|sep|] == sep;
      OccursAt(sep, s[1..], |a| - 1);
      SplitLastDropsPrefix(a[1..], sep, t);
    }
  }

  lemma {:induction false} OccursAt(sep: string, s: string, k: nat)
    requires k + |sep| <= |s| && s[k..][..|sep|] == sep
    ensures Occurs(sep, s)
    decreases k
  {
    if k > 0 {
      assert s[1..][k - 1..] == s[k..];
      OccursAt(sep, s[1..], k - 1);
    }
  }

  /** A string without the separator's first character holds no separator. */
  lemma {:induction false} AbsentCharNoOccurs(sep: string, s: string)
    requires |sep| > 0 && sep[0] !in s
    ensures !Occurs(sep, s)
    decreases |s|
  {
    if |s| >= |sep| {
      assert s[..|sep|][0] == s[0];
      AbsentCharNoOccurs(sep, s[1..]);
    }
  }

  /** A separator followed by text without the separator's first character:
      the last piece is that text. */
  lemma SplitLastAfterSeparator(sep: string, t: string)
    requires |sep| > 0 && sep[0] !in t
    ensures SplitLast(sep + t, sep) == t
  {
    SplitLastDropsPrefix([], sep, t);
    assert [] + sep + t == sep + t;
    AbsentCharNoOccurs(sep, t);
    NoSeparatorSplitLast(t, sep);
  }

  // ----- case mapping (ASCII letters only) -----

  function LowerChar(c: char): char
  {
    if 'A' <= c <= 'Z' then (c as int + 32) as char else c
  }

  function UpperChar(c: char): char
  {
    if 'a' <= c <= 'z' then (c as int - 32) as char else c
  }

  function ToLower(s: string): (r: string)
    ensures |r| == |s|
    ensures forall i :: 0 <= i < |s| ==> r[i] == LowerChar(s[i])
  {
    seq(|s|, i requires 0 <= i < |s| => LowerChar(s[i]))
  }

  // ----- code-unit lexicographic order -----

  /** `a` sorts before or equal to `b`, comparing character codes. */
  predicate LexLe(a: string, b: string)
    decreases |a|
  {
    a == [] || (b != [] && (a[0] < b[0] || (a[0] == b[0] && LexLe(a[1..], b[1..]))))
  }

  /** A common prefix does not change the comparison. */
  lemma {:induction false} LexLeCommonPrefix(p: string, x: string, y: string)
    ensures LexLe(p + x, p + y) == LexLe(x, y)
    decreases |p|
  {
    if p != [] {
      assert (p + x)[1..] == p[1..] + x;
      assert (p + y)[1..] == p[1..] + y;
      LexLeCommonPrefix(p[1..], x, y);
    } else {
      assert p + x == x && p + y == y;
    }
  }
}
