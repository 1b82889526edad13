/**
 * Decoding of the raw value span captured for one line: trim the ASCII white
 * space, strip one quote character from each end when both ends are quotes
 * (of any kind, not necessarily the same), and, only when the trimmed value
 * began with a double quote, expand the two-character escapes `\n` and `\r`
 * (in that order, each left to right without overlaps).
 */
module ValueDecode {
  import opened Chars

  /** Length of the longest prefix of `s` made of trim-space characters. */
  function LeadBlanks(s: string): (n: nat)
    ensures n <= |s| && AllTrimSpace(s[..n])
    ensures n < |s| ==> !IsTrimSpace(s[n])
  {
    if |s| == 0 || !IsTrimSpace(s[0]) then 0
    else
      var n := LeadBlanks(s[1..]);
      assert s[..n + 1] == [s[0]] + s[1..][..n];
      n + 1
  }

  /** Length of the longest suffix of `s` made of trim-space characters. */
  function TrailBlanks(s: string): (n: nat)
    ensures n <= |s| && AllTrimSpace(s[|s| - n..])
    ensures n < |s| ==> !IsTrimSpace(s[|s| - 1 - n])
  {
    if |s| == 0 || !IsTrimSpace(s[|s| - 1]) then 0
    else
      var p := s[..|s| - 1];
      var n := TrailBlanks(p);
      assert AllTrimSpace(s[|s| - (n + 1)..]) by {
        var t, u := s[|s| - (n + 1)..], p[|p| - n..];
        forall i | 0 <= i < |t|
          ensures IsTrimSpace(t[i])
        {
          if i < n {
            assert t[i] == u[i];
          }
        }
      }
      assert n + 1 < |s| ==> s[|s| - 1 - (n + 1)] == p[|p| - 1 - n];
      n + 1
  }

  /**
   * `strings.TrimSpace` on ASCII text: the slice of `s` left after dropping
   * trim-space characters from both ends. It is empty exactly when `s` is blank.
   */
  function TrimSpace(s: string): (r: string)
    ensures LeadBlanks(s) + |r| <= |s| && s[LeadBlanks(s)..LeadBlanks(s) + |r|] == r
    ensures AllTrimSpace(s[..LeadBlanks(s)]) && AllTrimSpace(s[LeadBlanks(s) + |r|..])
    ensures |r| > 0 ==> !IsTrimSpace(r[0]) && !IsTrimSpace(r[|r| - 1])
    ensures AllTrimSpace(s) <==> r == []
  {
    var a := LeadBlanks(s);
    var t := s[a..];
    var k := |t| - TrailBlanks(t);
    var r := t[..k];
    assert s[a..a + k] == r && s[a + k..] == t[k..];
    assert k > 0 ==> r[0] == s[a] && r[k - 1] == t[k - 1];
    assert k == 0 ==> a == |s| && s[..a] == s;
    r
  }

  /** A blank prefix of length n followed by a non-blank is exactly the leading blanks. */
  lemma {:induction false} LeadBlanksUnique(s: string, n: nat)
    requires n <= |s| && AllTrimSpace(s[..n]) && (n == |s| || !IsTrimSpace(s[n]))
    ensures LeadBlanks(s) == n
  {
    if n > 0 {
      assert s[..n][0] == s[0];
      assert s[1..][..n - 1] == s[..n][1..];
      if n < |s| {
        assert s[1..][n - 1] == s[n];
      }
      LeadBlanksUnique(s[1..], n - 1);
    }
  }

  /** A blank suffix of length n preceded by a non-blank is exactly the trailing blanks. */
  lemma {:induction false} TrailBlanksUnique(s: string, n: nat)
    requires n <= |s| && AllTrimSpace(s[|s| - n..]) && (n == |s| || !IsTrimSpace(s[|s| - 1 - n]))
    ensures TrailBlanks(s) == n
  {
    if n > 0 {
      assert s[|s| - n..][n - 1] == s[|s| - 1];
      var p := s[..|s| - 1];
      var t, u := p[|p| - (n - 1)..], s[|s| - n..];
      assert AllTrimSpace(t) by {
        forall i | 0 <= i < |t|
          ensures IsTrimSpace(t[i])
        {
          assert t[i] == u[i];
        }
      }
      if n < |s| {
        var m := |s| - 1 - n;
        assert m == |p| - 1 - (n - 1) && p[m] == s[m];
      }
      TrailBlanksUnique(p, n - 1);
    }
  }

  /**
   * The quote strip: when the value has at least two characters and both its
   * first and its last character are quotes, exactly those two are removed;
   * otherwise the value is unchanged.
   */
  function StripQuotes(v: string): (r: string)
    ensures |v| >= 2 && IsQuote(v[0]) && IsQuote(v[|v| - 1]) ==> [v[0]] + r + [v[|v| - 1]] == v
    ensures !(|v| >= 2 && IsQuote(v[0]) && IsQuote(v[|v| - 1])) ==> r == v
  {
    if |v| >= 2 && IsQuote(v[0]) && IsQuote(v[|v| - 1]) then v[1..|v| - 1] else v
  }

  /**
   * `strings.ReplaceAll(s, "\" + [c], [x])`: scans left to right and replaces
   * each backslash followed by c with x, resuming after the replaced pair.
   */
  function ReplaceEscape(s: string, c: char, x: char): (r: string)
    ensures |r| <= |s|
    ensures '\\' !in s ==> r == s
  {
    if |s| == 0 then []
    else if |s| >= 2 && s[0] == '\\' && s[1] == c then [x] + ReplaceEscape(s[2..], c, x)
    else
      assert '\\' !in s ==> '\\' !in s[1..] by {
        assert forall k :: 0 <= k < |s| - 1 ==> s[1..][k] == s[k + 1];
      }
      [s[0]] + ReplaceEscape(s[1..], c, x)
  }

  /** The escape expansion applied to double-quoted values: `\n` first, then `\r`. */
  function Expand(s: string): (r: string)
    ensures |r| <= |s|
    ensures '\\' !in s ==> r == s
  {
    ReplaceEscape(ReplaceEscape(s, 'n', '\n'), 'r', '\r')
  }

  /**
   * Decodes a raw value span. An all-blank span decodes to the empty string;
   * otherwise the trimmed value loses its enclosing quotes and, if it began
   * with a double quote, has its escapes expanded.
   */
  function DecodeValue(raw: string): (v: string)
    ensures |v| <= |raw|
    ensures AllTrimSpace(raw) ==> v == []
  {
    var t := TrimSpace(raw);
    if |t| == 0 then []
    else
      var first := t[0];
      var stripped := StripQuotes(t);
      if first == '"' then Expand(stripped) else stripped
  }

  // ---------------------------------------------------------------------------
  // Partners: an independent characterisation of trimming, and the escaping
  // that Expand undoes.
  // ---------------------------------------------------------------------------

  /** Trimming is determined by the shape of its input: blanks, a trimmed core, blanks. */
  lemma {:induction false} TrimSpaceOf(w1: string, v: string, w2: string)
    requires AllTrimSpace(w1) && AllTrimSpace(w2)
    requires |v| > 0 ==> !IsTrimSpace(v[0]) && !IsTrimSpace(v[|v| - 1])
    ensures TrimSpace(w1 + v + w2) == v
  {
    var s := w1 + v + w2;
    if |v| == 0 {
      assert AllTrimSpace(s) by {
        assert forall k :: 0 <= k < |s| ==> s[k] == if k < |w1| then w1[k] else w2[k - |w1|];
      }
    } else {
      assert s[..|w1|] == w1 && s[|w1|] == v[0];
      LeadBlanksUnique(s, |w1|);
      var t := s[|w1|..];
      assert t == v + w2;
      assert t[|t| - |w2|..] == w2 && t[|t| - 1 - |w2|] == v[|v| - 1];
      TrailBlanksUnique(t, |w2|);
      assert t[..|t| - |w2|] == v;
    }
  }

  /** Trimming twice is trimming once. */
  lemma {:induction false} TrimSpaceIdempotent(s: string)
    ensures TrimSpace(TrimSpace(s)) == TrimSpace(s)
  {
    var r := TrimSpace(s);
    assert [] + r + [] == r;
    TrimSpaceOf([], r, []);
  }

  /** Replaces each x with a backslash and c: the escaping that ReplaceEscape undoes. */
  function EscapeChar(s: string, x: char, c: char): (r: string)
    ensures |r| >= |s|
    ensures x !in s ==> r == s
  {
    if |s| == 0 then []
    else
      assert x !in s ==> x !in s[1..] by {
        assert forall k :: 0 <= k < |s| - 1 ==> s[1..][k] == s[k + 1];
      }
      (if s[0] == x then ['\\', c] else [s[0]]) + EscapeChar(s[1..], x, c)
  }

  /** No backslash in s is directly followed by c. */
  predicate NoEscapeOf(s: string, c: char) {
    forall i :: 0 <= i < |s| - 1 && s[i] == '\\' ==> s[i + 1] != c
  }

  /** ReplaceEscape inverts EscapeChar on text where no backslash already precedes c. */
  lemma {:induction false} ReplaceAfterEscape(t: string, x: char, c: char)
    requires c != '\\' && x != '\\'
    requires NoEscapeOf(t, c)
    ensures ReplaceEscape(EscapeChar(t, x, c), c, x) == t
  {
    if |t| > 0 {
      var u := EscapeChar(t, x, c);
      var tail := EscapeChar(t[1..], x, c);
      assert NoEscapeOf(t[1..], c) by {
        assert forall k :: 0 <= k < |t| - 1 ==> t[1..][k] == t[k + 1];
      }
      ReplaceAfterEscape(t[1..], x, c);
      if t[0] == x {
        assert u == ['\\', c] + tail;
        assert u[2..] == tail;
      } else {
        assert u == [t[0]] + tail;
        assert u[1..] == tail;
        if t[0] == '\\' && |tail| > 0 {
          assert |t| > 1;
          assert tail[0] == (if t[1] == x then '\\' else t[1]);
        }
      }
    }
  }

  /** The escaping a double-quoted value needs for Expand to give back `s`: CR as `\r`, then LF as `\n`. */
  function Escape(s: string): (r: string)
    ensures |r| >= |s|
    ensures '\n' !in s && '\r' !in s ==> r == s
  {
    EscapeChar(EscapeChar(s, '\r', 'r'), '\n', 'n')
  }

  /** A backslash produced by EscapeChar is followed by c. */
  lemma {:induction false} EscapeCharOnly(s: string, x: char, c: char, d: char)
    requires '\\' !in s && d != c && c != '\\'
    ensures NoEscapeOf(EscapeChar(s, x, c), d)
  {
    if |s| > 0 {
      assert '\\' !in s[1..] by {
        assert forall k :: 0 <= k < |s| - 1 ==> s[1..][k] == s[k + 1];
      }
      EscapeCharOnly(s[1..], x, c, d);
      var tail := EscapeChar(s[1..], x, c);
      var u := EscapeChar(s, x, c);
      var h: string := if s[0] == x then ['\\', c] else [s[0]];
      assert u == h + tail;
      forall i | 0 <= i < |u| - 1 && u[i] == '\\'
        ensures u[i + 1] != d
      {
        if i >= |h| {
          assert u[i] == tail[i - |h|] && u[i + 1] == tail[i - |h| + 1];
        }
      }
    }
  }

  /** Expand undoes Escape on text without backslashes. */
  lemma {:induction false} ExpandEscape(s: string)
    requires '\\' !in s
    ensures Expand(Escape(s)) == s
  {
    var t := EscapeChar(s, '\r', 'r');
    EscapeCharOnly(s, '\r', 'r', 'n');
    ReplaceAfterEscape(t, '\n', 'n');
    ReplaceAfterEscape(s, '\r', 'r');
  }

  // ---------------------------------------------------------------------------
  // What decoding does to each shape of value.
  // ---------------------------------------------------------------------------

  /**
   * A value enclosed in two quotes (of any kinds) decodes to the text between
   * them, escapes expanded only when the opening quote is a double quote.
   */
  lemma {:induction false} DecodeQuoted(w1: string, q1: char, body: string, q2: char, w2: string)
    requires AllTrimSpace(w1) && AllTrimSpace(w2) && IsQuote(q1) && IsQuote(q2)
    ensures DecodeValue(w1 + [q1] + body + [q2] + w2) == if q1 == '"' then Expand(body) else body
  {
    var v := [q1] + body + [q2];
    assert w1 + [q1] + body + [q2] + w2 == w1 + v + w2;
    TrimSpaceOf(w1, v, w2);
    assert |v| >= 2 && v[0] == q1 && v[|v| - 1] == q2;
    assert StripQuotes(v) == body by {
      assert v[1..|v| - 1] == body;
    }
  }

  /** A trimmed value that does not start with a quote decodes to itself. */
  lemma {:induction false} DecodeBare(w1: string, v: string, w2: string)
    requires AllTrimSpace(w1) && AllTrimSpace(w2)
    requires |v| > 0 && !IsTrimSpace(v[0]) && !IsTrimSpace(v[|v| - 1]) && !IsQuote(v[0])
    ensures DecodeValue(w1 + v + w2) == v
  {
    TrimSpaceOf(w1, v, w2);
  }

  /**
   * A trimmed value that opens with a quote but does not close with one (the
   * unquoted alternative takes `K="a\nb`) keeps its opening quote, and is still
   * expanded when that quote is a double quote.
   */
  lemma {:induction false} DecodeOpenQuote(w1: string, q: char, body: string, w2: string)
    requires AllTrimSpace(w1) && AllTrimSpace(w2) && IsQuote(q)
    requires |body| > 0 ==> !IsQuote(body[|body| - 1]) && !IsTrimSpace(body[|body| - 1])
    ensures DecodeValue(w1 + [q] + body + w2) == if q == '"' then Expand([q] + body) else [q] + body
  {
    var v := [q] + body;
    assert w1 + [q] + body + w2 == w1 + v + w2;
    assert v[|v| - 1] == if |body| > 0 then body[|body| - 1] else q;
    TrimSpaceOf(w1, v, w2);
  }

  /** A double-quoted escaped value decodes back to the text that was escaped. */
  lemma {:induction false} DecodeEscaped(s: string)
    requires '\\' !in s
    ensures DecodeValue("\"" + Escape(s) + "\"") == s
  {
    assert "\"" + Escape(s) + "\"" == [] + ['"'] + Escape(s) + ['"'] + [];
    DecodeQuoted([], '"', Escape(s), '"', []);
    ExpandEscape(s);
  }

  /** Quoted text without backslashes is kept verbatim, whatever the quote kind. */
  lemma {:induction false} DecodeBackslashFree(w1: string, q: char, body: string, w2: string)
    requires AllTrimSpace(w1) && AllTrimSpace(w2) && IsQuote(q) && '\\' !in body
    ensures DecodeValue(w1 + [q] + body + [q] + w2) == body
  {
    DecodeQuoted(w1, q, body, q, w2);
  }
}
