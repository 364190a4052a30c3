/** String helpers used by the validators and the ignore-case queries.
    Case folding is restricted to ASCII letters. */
module Text {

  /** A character String.trim() removes: every code point up to and
      including U+0020 (space and all C0 controls). Non-ASCII spaces are
      kept. */
  predicate IsTrimmable(c: char)
  {
    c as int <= 32
  }

  /** A blank string is empty once trimmed: it holds only trimmable
      characters (the empty string is blank). This is the test
      @NotBlank applies. */
  predicate IsBlank(s: string)
  {
    forall i :: 0 <= i < |s| ==> IsTrimmable(s[i])
  }

  function LowerChar(c: char): char
  {
    if 'A' <= c <= 'Z' then (c as int + 32) as char else c
  }

  function Lower(s: string): (r: string)
    ensures |r| == |s|
  {
    seq(|s|, i requires 0 <= i < |s| => LowerChar(s[i]))
  }

  predicate EqualsIgnoreCase(a: string, b: string)
  {
    Lower(a) == Lower(b)
  }

  /** p occurs in s starting at position i. */
  predicate OccursAt(p: string, s: string, i: int)
  {
    0 <= i <= |s| - |p| && s[i..i + |p|] == p
  }

  /** p occurs in s at some position. */
  predicate IsSubstring(p: string, s: string)
  {
    exists i :: 0 <= i <= |s| && OccursAt(p, s, i)
  }

  /** SQL `lower(s) like lower('%' || keyword || '%')` with the keyword's
      wildcards escaped: a plain substring test up to case. */
  predicate ContainsIgnoreCase(s: string, keyword: string)
  {
    IsSubstring(Lower(keyword), Lower(s))
  }

  /** Lexicographic order on strings by character code (a binary collation). */
  predicate NameLe(a: string, b: string)
    decreases |a|
  {
    |a| == 0 || (|b| > 0 && (a[0] < b[0] || (a[0] == b[0] && NameLe(a[1..], b[1..]))))
  }

  lemma {:induction false} NameLeReflexive(a: string)
    ensures NameLe(a, a)
    decreases |a|
  {
    if |a| > 0 {
      NameLeReflexive(a[1..]);
    }
  }

  lemma {:induction false} NameLeTotal(a: string, b: string)
    ensures NameLe(a, b) || NameLe(b, a)
    decreases |a|
  {
    if |a| > 0 && |b| > 0 && a[0] == b[0] {
      NameLeTotal(a[1..], b[1..]);
    }
  }

  lemma {:induction false} NameLeTransitive(a: string, b: string, c: string)
    requires NameLe(a, b) && NameLe(b, c)
    ensures NameLe(a, c)
    decreases |a|
  {
    if |a| > 0 && a[0] == b[0] && b[0] == c[0] {
      NameLeTransitive(a[1..], b[1..], c[1..]);
    }
  }

  lemma {:induction false} NameLeAntisymmetric(a: string, b: string)
    requires NameLe(a, b) && NameLe(b, a)
    ensures a == b
    decreases |a|
  {
    if |a| > 0 {
      NameLeAntisymmetric(a[1..], b[1..]);
      assert a == [a[0]] + a[1..];
      assert b == [b[0]] + b[1..];
    }
  }

  /** The match is insensitive to the case of the keyword. */
  lemma ContainsIgnoresKeywordCase(s: string, k1: string, k2: string)
    requires EqualsIgnoreCase(k1, k2)
    ensures ContainsIgnoreCase(s, k1) <==> ContainsIgnoreCase(s, k2)
  {
  }

  /** The empty keyword matches every string. */
  lemma EmptyKeywordMatchesAll(s: string)
    ensures ContainsIgnoreCase(s, "")
  {
    assert OccursAt(Lower(""), Lower(s), 0);
  }
}
