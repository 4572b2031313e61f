/**
 * String helpers shared by the stores and components.
 *
 * A `string` here is a sequence of Unicode scalar values, not of UTF-16 code units as in
 * JavaScript: lengths, indices and order agree with JavaScript's only while no character
 * lies outside the Basic Multilingual Plane. Only the ASCII part of `toLowerCase` is
 * modelled.
 */
module Text {

  predicate IsUpper(c: char) { 'A' <= c <= 'Z' }
  predicate IsLower(c: char) { 'a' <= c <= 'z' }
  predicate IsDigit(c: char) { '0' <= c <= '9' }
  predicate IsAsciiAlnum(c: char) { IsUpper(c) || IsLower(c) || IsDigit(c) }

  /** `toLowerCase` of one code unit, restricted to ASCII. */
  function LowerChar(c: char): (r: char)
    ensures !IsUpper(r)
    ensures IsUpper(c) ==> IsLower(r) && r as int == c as int + 32
    ensures !IsUpper(c) ==> r == c
  {
    if IsUpper(c) then (c as int + 32) as char else c
  }

  /** `String.prototype.toLowerCase`, restricted to ASCII letters. */
  function Lower(s: string): (r: string)
    ensures |r| == |s|
    ensures forall i :: 0 <= i < |s| ==> r[i] == LowerChar(s[i])
  {
    seq(|s|, i requires 0 <= i < |s| => LowerChar(s[i]))
  }

  lemma LowerIdempotent(s: string)
    ensures Lower(Lower(s)) == Lower(s)
  {
  }

  /** `s.startsWith(p)` */
  predicate IsPrefix(p: string, s: string) {
    |p| <= |s| && s[..|p|] == p
  }

  lemma PrefixAppend(p: string, s: string, x: string)
    requires IsPrefix(p, s)
    ensures IsPrefix(p, s + x)
  {
    assert (s + x)[..|p|] == s[..|p|];
  }

  /** `s.endsWith(suffix)` */
  predicate EndsWith(s: string, suffix: string) {
    |suffix| <= |s| && s[|s| - |suffix|..] == suffix
  }

  /** `s.includes(sub)`: `sub` occurs at some position of `s`. */
  predicate Contains(s: string, sub: string) {
    IsPrefix(sub, s) || (s != [] && Contains(s[1..], sub))
  }

  lemma {:induction false} ContainsLeft(a: string, s: string, sub: string)
    requires Contains(s, sub)
    ensures Contains(a + s, sub)
    decreases |a|
  {
    if a == [] {
      assert a + s == s;
    } else {
      assert (a + s)[1..] == a[1..] + s;
      ContainsLeft(a[1..], s, sub);
    }
  }

  lemma {:induction false} ContainsRight(s: string, b: string, sub: string)
    requires Contains(s, sub)
    ensures Contains(s + b, sub)
    decreases |s|
  {
    if IsPrefix(sub, s) {
      assert (s + b)[..|sub|] == s[..|sub|];
    } else {
      assert (s + b)[1..] == s[1..] + b;
      ContainsRight(s[1..], b, sub);
    }
  }

  lemma ContainsSelf(s: string)
    ensures Contains(s, s)
  {
    assert s[..|s|] == s;
  }

  lemma ContainsMiddle(a: string, sub: string, b: string)
    ensures Contains(a + sub + b, sub)
  {
    assert IsPrefix(sub, sub + b);
    ContainsLeft(a, sub + b, sub);
    assert a + (sub + b) == a + sub + b;
  }

  lemma {:induction false} ContainsPrefixTrans(a: string, b: string, c: string)
    requires IsPrefix(b, a) && Contains(b, c)
    ensures Contains(a, c)
    decreases |b|
  {
    if IsPrefix(c, b) {
      assert a[..|c|] == b[..|c|];
    } else {
      assert IsPrefix(b[1..], a[1..]) by { assert a[1..][..|b| - 1] == a[..|b|][1..]; }
      ContainsPrefixTrans(a[1..], b[1..], c);
    }
  }

  /** `includes` is transitive. */
  lemma {:induction false} ContainsTrans(a: string, b: string, c: string)
    requires Contains(a, b) && Contains(b, c)
    ensures Contains(a, c)
    decreases |a|
  {
    if IsPrefix(b, a) {
      ContainsPrefixTrans(a, b, c);
    } else {
      ContainsTrans(a[1..], b, c);
    }
  }

  /**
   * The default order of `Array.prototype.sort` on strings: lexicographic, a proper prefix
   * before the longer string. Characters compare by scalar value; JavaScript compares
   * UTF-16 code units, which differs only between characters above U+FFFF and
   * U+E000..U+FFFF.
   */
  predicate Less(a: string, b: string)
    decreases |a|
  {
    if a == [] then b != []
    else if b == [] then false
    else if a[0] != b[0] then a[0] < b[0]
    else Less(a[1..], b[1..])
  }

  lemma {:induction false} LessIrreflexive(a: string)
    ensures !Less(a, a)
    decreases |a|
  {
    if a != [] {
      LessIrreflexive(a[1..]);
    }
  }

  lemma {:induction false} LessTransitive(a: string, b: string, c: string)
    requires Less(a, b) && Less(b, c)
    ensures Less(a, c)
    decreases |a|
  {
    if a != [] && b != [] && c != [] && a[0] == b[0] && b[0] == c[0] {
      LessTransitive(a[1..], b[1..], c[1..]);
    }
  }

  lemma {:induction false} LessTotal(a: string, b: string)
    requires a != b
    ensures Less(a, b) || Less(b, a)
    decreases |a|
  {
    if a != [] && b != [] && a[0] == b[0] {
      assert a == [a[0]] + a[1..] && b == [b[0]] + b[1..];
      LessTotal(a[1..], b[1..]);
    }
  }
}
