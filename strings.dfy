/**
 * Text helpers: ASCII lower-casing, which stands in for Java's
 * String.toLowerCase, and splitting a string at the first occurrence
 * of a separator, used to read a path or a request line back.
 */
module Strings {
  import opened Wrappers

  predicate IsUpper(c: char) {
    'A' <= c <= 'Z'
  }

  /** A string with no upper-case ASCII letter in it. */
  predicate IsLower(s: string) {
    forall i :: 0 <= i < |s| ==> !IsUpper(s[i])
  }

  /** ASCII lower-casing of one character. */
  function LowerChar(c: char): (r: char)
    ensures !IsUpper(r)
    ensures !IsUpper(c) ==> r == c
    ensures IsUpper(c) ==> r as int - c as int == 'a' as int - 'A' as int
  {
    if IsUpper(c) then (c as int - 'A' as int + 'a' as int) as char else c
  }

  /** ASCII lower-casing of a string, character by character. */
  function Lower(s: string): (r: string)
    ensures |r| == |s|
    ensures forall i :: 0 <= i < |s| ==> r[i] == LowerChar(s[i])
    ensures IsLower(r)
  {
    if s == [] then [] else [LowerChar(s[0])] + Lower(s[1..])
  }

  /** Lower-cased strings are left alone, so lower-casing twice is lower-casing once. */
  lemma LowerFixesLower(s: string)
    requires IsLower(s)
    ensures Lower(s) == s
  {
    assert forall i :: 0 <= i < |s| ==> Lower(s)[i] == s[i];
  }

  lemma LowerIdempotent(s: string)
    ensures Lower(Lower(s)) == Lower(s)
  {
    LowerFixesLower(Lower(s));
  }

  /**
   * Splits s at the first occurrence of sep: the part before it, and the
   * part after it when sep occurs at all.
   */
  function SplitAt(s: string, sep: char): (string, Option<string>)
  {
    if s == [] then ([], None)
    else if s[0] == sep then ([], Some(s[1..]))
    else
      var (head, tail) := SplitAt(s[1..], sep);
      ([s[0]] + head, tail)
  }

  /** A string without the separator is returned whole, with nothing after it. */
  lemma {:induction false} SplitAtAbsent(a: string, sep: char)
    requires sep !in a
    ensures SplitAt(a, sep) == (a, None)
  {
    if a != [] {
      SplitAtAbsent(a[1..], sep);
      assert [a[0]] + a[1..] == a;
    }
  }

  /** Joining a separator-free head to any tail with the separator is undone by SplitAt. */
  lemma {:induction false} SplitAtJoin(a: string, sep: char, b: string)
    requires sep !in a
    ensures SplitAt(a + [sep] + b, sep) == (a, Some(b))
  {
    if a == [] {
      assert a + [sep] + b == [sep] + b;
    } else {
      SplitAtJoin(a[1..], sep, b);
      assert (a + [sep] + b)[1..] == a[1..] + [sep] + b;
      assert [a[0]] + a[1..] == a;
    }
  }
}
