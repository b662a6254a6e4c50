/** The handful of string primitives the handler relies on: Go's strings.Cut,
    strings.Contains, strings.HasPrefix (Dafny's `<=` on sequences) and the
    byte-wise string order used by sort. */
module Strings {

  /** Splits s around the first occurrence of sep: (before, after, found).
      When sep is absent, before is all of s and after is empty. */
  function Cut(s: string, sep: char): (r: (string, string, bool))
    ensures r.2 ==> s == r.0 + [sep] + r.1 && sep !in r.0
    ensures !r.2 ==> s == r.0 && r.1 == [] && sep !in s
  {
    if s == [] then ([], [], false)
    else if s[0] == sep then ([], s[1..], true)
    else
      var (b, a, f) := Cut(s[1..], sep);
      assert s == [s[0]] + s[1..];
      ([s[0]] + b, a, f)
  }

  /** The first separator is the one Cut splits at: any split whose left part is
      separator-free is the split Cut returns. */
  lemma {:induction false} CutAtFirst(a: string, sep: char, b: string)
    requires sep !in a
    ensures Cut(a + [sep] + b, sep) == (a, b, true)
  {
    var s := a + [sep] + b;
    if a == [] {
      assert s == [sep] + b;
    } else {
      assert s[1..] == a[1..] + [sep] + b;
      CutAtFirst(a[1..], sep, b);
      assert a == [a[0]] + a[1..];
    }
  }

  /** Without a separator there is nothing to cut. */
  lemma {:induction false} CutAbsent(s: string, sep: char)
    requires sep !in s
    ensures Cut(s, sep) == (s, [], false)
  {
    if s != [] {
      assert s[0] != sep;
      CutAbsent(s[1..], sep);
      assert s == [s[0]] + s[1..];
    }
  }

  /** Go's strings.Contains: t occurs somewhere in s as a contiguous piece. */
  predicate Contains(s: string, t: string)
  {
    t <= s || (s != [] && Contains(s[1..], t))
  }

  /** Go's `<=` on strings. Go compares the UTF-8 bytes, which orders valid text
      exactly as comparing code points does. */
  predicate LessOrEqual(a: string, b: string)
  {
    a == [] || (b != [] && (a[0] < b[0] || (a[0] == b[0] && LessOrEqual(a[1..], b[1..]))))
  }

  /** Any two strings are comparable, so sorting by key is well defined. */
  lemma {:induction false} LessOrEqualTotal(a: string, b: string)
    ensures LessOrEqual(a, b) || LessOrEqual(b, a)
  {
    if a != [] && b != [] && a[0] == b[0] {
      LessOrEqualTotal(a[1..], b[1..]);
    }
  }

  /** Every string is below-or-equal itself. */
  lemma {:induction false} LessOrEqualReflexive(a: string)
    ensures LessOrEqual(a, a)
  {
    if a != [] {
      LessOrEqualReflexive(a[1..]);
    }
  }
}
