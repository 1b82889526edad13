/**
 * Character classes and prefix scanners shared by the line tokenizer and the
 * value decoder.
 */
module Chars {

  /** Go regexp's `\s`: tab, line feed, form feed, carriage return and space (no vertical tab). */
  predicate IsSpace(c: char) {
    c == ' ' || c == '\t' || c == '\n' || c == '\U{C}' || c == '\r'
  }

  /** The ASCII part of `strings.TrimSpace`: `\s` plus the vertical tab. */
  predicate IsTrimSpace(c: char) {
    IsSpace(c) || c == '\U{B}'
  }

  /** A key character: `\w` (ASCII letters, digits, underscore) or `.` or `-`. */
  predicate IsKeyChar(c: char) {
    ('A' <= c <= 'Z') || ('a' <= c <= 'z') || ('0' <= c <= '9') || c == '_' || c == '.' || c == '-'
  }

  /** The three characters that may open or close a quoted value. */
  predicate IsQuote(c: char) {
    c == '\'' || c == '"' || c == '`'
  }

  predicate AllSpace(s: string) {
    forall i :: 0 <= i < |s| ==> IsSpace(s[i])
  }

  predicate AllTrimSpace(s: string) {
    forall i :: 0 <= i < |s| ==> IsTrimSpace(s[i])
  }

  /** A key token: one or more key characters. */
  predicate IsKey(s: string) {
    |s| > 0 && forall i :: 0 <= i < |s| ==> IsKeyChar(s[i])
  }

  /** Length of the longest prefix of `s` made of `\s` characters. */
  function Spaces(s: string): (n: nat)
    ensures n <= |s|
    ensures AllSpace(s[..n])
    ensures n < |s| ==> !IsSpace(s[n])
  {
    if |s| == 0 || !IsSpace(s[0]) then 0 else 1 + Spaces(s[1..])
  }

  /** Length of the longest prefix of `s` made of key characters. */
  function KeyLen(s: string): (n: nat)
    ensures n <= |s|
    ensures forall i :: 0 <= i < n ==> IsKeyChar(s[i])
    ensures n < |s| ==> !IsKeyChar(s[n])
  {
    if |s| == 0 || !IsKeyChar(s[0]) then 0 else 1 + KeyLen(s[1..])
  }

  /** Any all-space prefix is covered by `Spaces`. */
  lemma {:induction false} SpacesCovers(s: string, k: nat)
    requires k <= |s| && AllSpace(s[..k])
    ensures k <= Spaces(s)
  {
    if k > 0 {
      assert s[..k][0] == s[0];
      assert s[1..][..k - 1] == s[..k][1..];
      SpacesCovers(s[1..], k - 1);
    }
  }

  /** Spaces in front of `s` add to its own leading spaces. */
  lemma {:induction false} SpacesAppend(w: string, s: string)
    requires AllSpace(w)
    ensures Spaces(w + s) == |w| + Spaces(s)
  {
    if |w| > 0 {
      assert (w + s)[1..] == w[1..] + s;
      SpacesAppend(w[1..], s);
    } else {
      assert w + s == s;
    }
  }

  /** A key followed by a non-key character is exactly the maximal key run. */
  lemma {:induction false} KeyLenOfKey(key: string, s: string)
    requires IsKey(key)
    requires |s| == 0 || !IsKeyChar(s[0])
    ensures KeyLen(key + s) == |key|
  {
    assert (key + s)[0] == key[0];
    if |key| == 1 {
      assert (key + s)[1..] == s;
    } else {
      assert (key + s)[1..] == key[1..] + s;
      KeyLenOfKey(key[1..], s);
    }
  }

  /** A non-space character bounds the leading spaces. */
  lemma {:induction false} SpacesBelow(s: string, n: nat)
    requires n < |s| && !IsSpace(s[n])
    ensures Spaces(s) <= n
  {
    if n > 0 && IsSpace(s[0]) {
      SpacesBelow(s[1..], n - 1);
    }
  }

  /** `Spaces` is the unique length of a maximal all-space prefix. */
  lemma {:induction false} SpacesUnique(s: string, n: nat)
    requires n <= |s| && AllSpace(s[..n])
    requires n == |s| || !IsSpace(s[n])
    ensures Spaces(s) == n
  {
    SpacesCovers(s, n);
    if n < |s| {
      SpacesBelow(s, n);
    }
  }
}
