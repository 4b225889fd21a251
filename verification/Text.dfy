/** Byte order of names.

    Go compares strings, and SQLite compares name columns, byte by byte. For valid
    UTF-8 that is the order of the Unicode scalar values, which is what Dafny's
    `char` ranges over, so names are plain `string`s here.
 */
module Text {

  /** `strings.Compare`: -1, 0 or 1 by the first differing character. */
  function Compare(a: string, b: string): (c: int)
    ensures -1 <= c <= 1
    decreases |a|
  {
    if a == [] then (if b == [] then 0 else -1)
    else if b == [] then 1
    else if a[0] < b[0] then -1
    else if b[0] < a[0] then 1
    else Compare(a[1..], b[1..])
  }

  predicate Before(a: string, b: string) {
    Compare(a, b) < 0
  }

  lemma {:induction false} CompareZero(a: string, b: string)
    ensures Compare(a, b) == 0 <==> a == b
    decreases |a|
  {
    if a != [] && b != [] && a[0] == b[0] {
      CompareZero(a[1..], b[1..]);
      assert a == [a[0]] + a[1..] && b == [b[0]] + b[1..];
    }
  }

  lemma {:induction false} CompareFlip(a: string, b: string)
    ensures Compare(a, b) == -Compare(b, a)
    decreases |a|
  {
    if a != [] && b != [] && a[0] == b[0] {
      CompareFlip(a[1..], b[1..]);
    }
  }

  lemma {:induction false} CompareTransitive(a: string, b: string, c: string)
    requires Compare(a, b) <= 0 && Compare(b, c) <= 0
    ensures Compare(a, c) <= 0
    ensures Compare(a, c) == 0 ==> Compare(a, b) == 0 && Compare(b, c) == 0
    decreases |a|
  {
    if a != [] && b != [] && c != [] && a[0] == b[0] == c[0] {
      CompareTransitive(a[1..], b[1..], c[1..]);
    }
  }

  lemma BeforeTransitive(a: string, b: string, c: string)
    requires Compare(a, b) <= 0 && Compare(b, c) <= 0
    requires Before(a, b) || Before(b, c)
    ensures Before(a, c)
  {
    CompareTransitive(a, b, c);
  }

  /** A common prefix does not affect the comparison. */
  lemma {:induction false} CompareCommonPrefix(p: string, a: string, b: string)
    ensures Compare(p + a, p + b) == Compare(a, b)
    decreases |p|
  {
    if p == [] {
      assert p + a == a && p + b == b;
    } else {
      CompareCommonPrefix(p[1..], a, b);
      assert (p + a)[1..] == p[1..] + a && (p + b)[1..] == p[1..] + b;
    }
  }

  /** A string orders at or after each of its prefixes. */
  lemma PrefixNotAfter(p: string, s: string)
    requires p <= s
    ensures Compare(p, s) <= 0
  {
    assert s == p + s[|p|..] && p == p + [];
    CompareCommonPrefix(p, [], s[|p|..]);
  }

  /** Two strings that bracket a string share no longer prefix than it does:
      everything between two extensions of `p` extends `p`. */
  lemma {:induction false} BetweenSharesPrefix(p: string, lo: string, s: string, hi: string)
    requires p <= lo && p <= hi
    requires Compare(lo, s) <= 0 && Compare(s, hi) <= 0
    ensures p <= s
    decreases |p|
  {
    if p != [] {
      assert s != [] && s[0] == p[0];
      BetweenSharesPrefix(p[1..], lo[1..], s[1..], hi[1..]);
    }
  }

  /** `d` is the scalar value after `c`; the surrogates are not scalar values. */
  predicate Adjacent(c: char, d: char) {
    d as int == (if c as int == 0xD7FF then 0xE000 else c as int + 1)
  }

  /** The half-open range from `p` plus `c` to `p` plus the next character holds
      exactly the strings that extend `p` plus `c`. */
  lemma ExtensionRange(p: string, c: char, d: char, s: string)
    requires Adjacent(c, d)
    ensures (Compare(p + [c], s) <= 0 && Before(s, p + [d])) <==> p + [c] <= s
  {
    if Compare(p + [c], s) <= 0 && Before(s, p + [d]) {
      BetweenSharesPrefix(p, p + [c], s, p + [d]);
      var rest := s[|p|..];
      assert s == p + rest;
      CompareCommonPrefix(p, [c], rest);
      CompareCommonPrefix(p, rest, [d]);
      assert rest != [] && rest[0] == c;
    }
    if p + [c] <= s {
      PrefixNotAfter(p + [c], s);
      var rest := s[|p|..];
      assert s == p + rest && rest[0] == c;
      CompareCommonPrefix(p, rest, [d]);
    }
  }
}
