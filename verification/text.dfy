/**
 Text primitives shared by the dictionary model: control characters, first
 occurrence search, `strings.Cut`-style splitting, prefixes and the
 lexicographic order Go uses for string `<`.

 Strings are sequences of code points. Every delimiter the dictionary format
 tests is ASCII and UTF-8 continuation bytes are never ASCII, so a scan over
 code points decides exactly what the byte-indexed scan of the library decides
 on valid text; likewise byte-lexicographic order of UTF-8 equals code-point
 lexicographic order.
 */
module Text {

  /** Characters below U+0020 terminate a candidate list. */
  predicate IsControl(c: char) {
    c < ' '
  }

  /** The largest code point, `unicode.MaxRune`. */
  const MaxRune: char := '\U{10FFFF}'

  /** Index of the first occurrence of `x` in `s`, or `|s|` when there is none. */
  function IndexOf<T(==)>(s: seq<T>, x: T): (n: nat)
    ensures n <= |s|
    ensures forall i :: 0 <= i < n ==> s[i] != x
    ensures n < |s| ==> s[n] == x
    ensures x !in s <==> n == |s|
  {
    if |s| == 0 then 0
    else if s[0] == x then 0
    else
      var n := 1 + IndexOf(s[1..], x);
      assert forall i :: 1 <= i < n ==> s[i] == s[1..][i - 1];
      n
  }

  /** The two conditions that pin down a first occurrence determine it. */
  lemma IndexOfUnique<T>(s: seq<T>, x: T, n: nat)
    requires n <= |s|
    requires forall i :: 0 <= i < n ==> s[i] != x
    requires n == |s| || s[n] == x
    ensures IndexOf(s, x) == n
  {
  }

  /** Where `x` occurs only after a prefix free of it, its first occurrence is found past that prefix. */
  lemma IndexOfAppend<T>(a: seq<T>, b: seq<T>, x: T)
    requires x !in a
    ensures IndexOf(a + b, x) == |a| + IndexOf(b, x)
  {
    var n := |a| + IndexOf(b, x);
    assert forall i :: 0 <= i < |a| ==> (a + b)[i] == a[i];
    assert forall i :: |a| <= i < |a| + |b| ==> (a + b)[i] == b[i - |a|];
    IndexOfUnique(a + b, x, n);
  }

  /**
   `strings.Cut(s, sep)` for a one-character separator: the text before the
   first `sep`, the text after it, and whether `sep` was found.
   */
  function Cut(s: string, sep: char): (r: (string, string, bool))
    ensures sep !in r.0
    ensures r.2 <==> sep in s
    ensures r.2 ==> s == r.0 + [sep] + r.1
    ensures !r.2 ==> r.0 == s && r.1 == []
  {
    var i := IndexOf(s, sep);
    if i < |s| then
      assert s == s[..i] + [sep] + s[i + 1..];
      (s[..i], s[i + 1..], true)
    else (s, [], false)
  }

  /** Cut undoes a join on a separator that does not occur in the left part. */
  lemma CutJoin(a: string, sep: char, b: string)
    requires sep !in a
    ensures Cut(a + [sep] + b, sep) == (a, b, true)
  {
    IndexOfAppend(a, [sep] + b, sep);
    assert a + [sep] + b == a + ([sep] + b);
    assert (a + [sep] + b)[..|a|] == a;
    assert (a + [sep] + b)[|a| + 1..] == b;
  }

  /** `strings.HasPrefix`. */
  predicate HasPrefix(s: string, p: string) {
    |p| <= |s| && s[..|p|] == p
  }

  /**
   Go's string `<`: lexicographic by code point, a proper prefix sorting
   first. (Dafny's own `<` on sequences means "proper prefix".)
   */
  predicate LexLess(a: string, b: string)
    decreases |a|
  {
    if |b| == 0 then false
    else if |a| == 0 then true
    else if a[0] != b[0] then a[0] < b[0]
    else LexLess(a[1..], b[1..])
  }

  lemma {:induction false} LexIrreflexive(a: string)
    ensures !LexLess(a, a)
    decreases |a|
  {
    if |a| > 0 {
      LexIrreflexive(a[1..]);
    }
  }

  lemma {:induction false} LexTransitive(a: string, b: string, c: string)
    requires LexLess(a, b) && LexLess(b, c)
    ensures LexLess(a, c)
    decreases |a|
  {
    if |a| > 0 && a[0] == b[0] && b[0] == c[0] {
      LexTransitive(a[1..], b[1..], c[1..]);
    }
  }

  lemma {:induction false} LexTotal(a: string, b: string)
    ensures a == b || LexLess(a, b) || LexLess(b, a)
    decreases |a|
  {
    if |a| > 0 && |b| > 0 && a[0] == b[0] {
      LexTotal(a[1..], b[1..]);
      if a[1..] == b[1..] {
        assert a == [a[0]] + a[1..] && b == [b[0]] + b[1..];
      }
    }
  }

  lemma {:induction false} LexAsymmetric(a: string, b: string)
    requires LexLess(a, b)
    ensures !LexLess(b, a)
    decreases |a|
  {
    if |a| > 0 && a[0] == b[0] {
      LexAsymmetric(a[1..], b[1..]);
    }
  }

  /** The order is a strict total order on strings. */
  lemma LexStrictTotalOrder()
    ensures forall a :: !LexLess(a, a)
    ensures forall a, b :: LexLess(a, b) ==> !LexLess(b, a)
    ensures forall a, b :: a == b || LexLess(a, b) || LexLess(b, a)
    ensures forall a, b, c :: LexLess(a, b) && LexLess(b, c) ==> LexLess(a, c)
  {
    forall a {
      LexIrreflexive(a);
    }
    forall a, b | LexLess(a, b) {
      LexAsymmetric(a, b);
    }
    forall a, b {
      LexTotal(a, b);
    }
    forall a, b, c | LexLess(a, b) && LexLess(b, c) {
      LexTransitive(a, b, c);
    }
  }

  /** Comparing two extensions of a common prefix compares the extensions. */
  lemma {:induction false} LexCommonPrefix(p: string, x: string, y: string)
    ensures LexLess(p + x, p + y) <==> LexLess(x, y)
    decreases |p|
  {
    if |p| > 0 {
      assert (p + x)[1..] == p[1..] + x;
      assert (p + y)[1..] == p[1..] + y;
      LexCommonPrefix(p[1..], x, y);
    } else {
      assert p + x == x && p + y == y;
    }
  }

  /** A string is never below one of its prefixes. */
  lemma {:induction false} LexNotBelowPrefix(p: string, s: string)
    requires HasPrefix(s, p)
    ensures !LexLess(s, p)
    decreases |p|
  {
    if |p| > 0 {
      assert s[1..][..|p| - 1] == p[1..];
      LexNotBelowPrefix(p[1..], s[1..]);
    }
  }

  /**
   The keys between `p` (inclusive) and `p + MaxRune` (exclusive) are exactly
   the extensions of `p` that do not extend `p + MaxRune`.
   */
  lemma {:induction false} PrefixRange(p: string, k: string)
    ensures (!LexLess(k, p) && LexLess(k, p + [MaxRune]))
        <==> (HasPrefix(k, p) && !HasPrefix(k, p + [MaxRune]))
    decreases |p|
  {
    if |p| == 0 {
      assert [] + [MaxRune] == [MaxRune];
      if |k| > 0 && k[0] != MaxRune {
        assert k[0] < MaxRune;
      }
      if |k| > 0 && k[0] == MaxRune {
        assert k[..1] == [MaxRune];
      }
    } else if |k| == 0 {
    } else {
      assert (p + [MaxRune])[1..] == p[1..] + [MaxRune];
      assert (p + [MaxRune])[0] == p[0];
      if k[0] == p[0] {
        PrefixRange(p[1..], k[1..]);
        assert HasPrefix(k, p) <==> HasPrefix(k[1..], p[1..]);
        assert HasPrefix(k, p + [MaxRune]) <==> HasPrefix(k[1..], p[1..] + [MaxRune]);
      }
    }
  }
}
