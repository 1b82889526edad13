/**
 * The per-line grammar of the dotenv dialect and the tokenizer that recognises it.
 *
 * One line is, in order: optional `\s`, optional `export` plus `\s`, a key of key
 * characters, a separator (`\s*=` followed by a lazy `\s*?`, or `:` followed by a
 * lazy `\s+?`), an optional value, and a tail of `\s` with an optional `#` comment.
 * The value is tried as single-quoted, double-quoted, backtick-quoted, then as an
 * unquoted run of characters other than `#` and carriage return, then as absent.
 *
 * The tokenizer follows the leftmost-first choice of Go's `envFileRegex`: each
 * alternative is accepted only when the rest of the line still matches, and a
 * quoted span closes at the right-most quote after which the line can still end.
 * The ghost predicates below state the same grammar without any search order:
 * `ParseLine` is sound for them, and `ParseLineComplete` shows it misses no line.
 */
module LineGrammar {
  import opened Wrappers
  import opened Chars

  /** The key and the raw value span (the second capture) of one matched line. */
  datatype Assignment = Assignment(key: string, raw: string)

  /** What may follow a value: `\s*`, then optionally `#` and anything up to the end of the line. */
  predicate Tail(u: string) {
    Spaces(u) == |u| || u[Spaces(u)] == '#'
  }

  /** A quote character q at position i of a body starting at lo is escaped by the backslash before it. */
  predicate EscapedAt(t: string, lo: nat, i: nat, q: char)
    requires i < |t|
  {
    t[i] == q ==> lo < i && t[i - 1] == '\\'
  }

  /** In t[lo..hi] every quote character q is directly preceded by a backslash inside the span. */
  predicate BodyOk(t: string, lo: nat, hi: nat, q: char)
    requires lo <= hi <= |t|
  {
    forall i :: lo <= i < hi ==> EscapedAt(t, lo, i, q)
  }

  /** Position e can close a span opened by the quote q at position j. */
  predicate IsClose(t: string, j: nat, q: char, e: int) {
    j < e < |t| && t[e] == q && BodyOk(t, j + 1, e, q) && Tail(t[e + 1..])
  }

  /** The right-most closing position at or below e (the greedy body gives back one character at a time). */
  function FindClose(t: string, j: nat, q: char, e: int): (r: Option<nat>)
    requires e < |t|
    ensures r.Some? ==> IsClose(t, j, q, r.value) && r.value <= e
    ensures forall e' :: (if r.Some? then r.value else j) < e' <= e ==> !IsClose(t, j, q, e')
    decreases e - j
  {
    if e <= j then None
    else if IsClose(t, j, q, e) then Some(e)
    else FindClose(t, j, q, e - 1)
  }

  /** A quoted alternative: the position of its closing quote, if the span opened by q after the leading spaces can close. */
  function QuotedAt(t: string, q: char): (r: Option<nat>)
    ensures r.Some? ==> Spaces(t) < |t| && t[Spaces(t)] == q && IsClose(t, Spaces(t), q, r.value)
    ensures r.Some? ==> forall e' :: r.value < e' ==> !IsClose(t, Spaces(t), q, e')
    ensures r.None? && Spaces(t) < |t| && t[Spaces(t)] == q ==> forall e' :: !IsClose(t, Spaces(t), q, e')
  {
    var j := Spaces(t);
    if j < |t| && t[j] == q then FindClose(t, j, q, |t| - 1) else None
  }

  /** Where an unquoted run stops: the first `#` or carriage return, or the end of the line. */
  function UnquotedEnd(t: string): (m: nat)
    ensures m <= |t|
    ensures forall i :: 0 <= i < m ==> t[i] != '#' && t[i] != '\r'
    ensures m < |t| ==> t[m] == '#' || t[m] == '\r'
  {
    if |t| == 0 || t[0] == '#' || t[0] == '\r' then 0 else 1 + UnquotedEnd(t[1..])
  }

  /** A quoted value span: spaces, the quote q, a body with only escaped q's, and q again. */
  ghost predicate QuotedForm(raw: string, q: char) {
    && Spaces(raw) + 2 <= |raw| && raw[Spaces(raw)] == q && raw[|raw| - 1] == q
    && BodyOk(raw, Spaces(raw) + 1, |raw| - 1, q)
  }

  /** An unquoted value span: one or more characters other than `#` and carriage return. */
  ghost predicate UnquotedForm(raw: string) {
    |raw| > 0 && forall i :: 0 <= i < |raw| ==> raw[i] != '#' && raw[i] != '\r'
  }

  /** raw is a value the grammar admits at the start of t (the empty span is the absent value). */
  ghost predicate IsValueAlt(t: string, raw: string) {
    && |raw| <= |t| && t[..|raw|] == raw && Tail(t[|raw|..])
    && (|raw| == 0 || QuotedForm(raw, '\'') || QuotedForm(raw, '"') || QuotedForm(raw, '`') || UnquotedForm(raw))
  }

  /** After the lazy spaces of the separator (at least minK of them), raw is an admissible value. */
  ghost predicate ValueSpan(r: string, minK: nat, raw: string) {
    exists k :: minK <= k <= |r| && AllSpace(r[..k]) && IsValueAlt(r[k..], raw)
  }

  /**
   * The separator sits at position sep of what follows the key: either `=` after
   * spaces, with any number of lazy spaces after it, or `:` right at the start,
   * with at least one lazy space after it.
   */
  ghost predicate SeparatorAt(rest: string, sep: nat, raw: string) {
    && sep < |rest|
    && (|| (rest[sep] == '=' && AllSpace(rest[..sep]) && ValueSpan(rest[sep + 1..], 0, raw))
        || (rest[sep] == ':' && sep == 0 && ValueSpan(rest[1..], 1, raw)))
  }

  /** s starts with the key, followed by a separator at offset sep after the key. */
  ghost predicate KeyedAt(s: string, key: string, sep: nat, raw: string) {
    IsKey(key) && |key| <= |s| && s[..|key|] == key && SeparatorAt(s[|key|..], sep, raw)
  }

  /** s starts with a key, a separator and a value. */
  ghost predicate KeyedLine(s: string, key: string, raw: string) {
    exists sep :: KeyedAt(s, key, sep, raw)
  }

  /** The key starts at ks after the leading spaces line[..i] and, when ks != i, after `export` and spaces. */
  ghost predicate KeyStart(line: string, i: nat, ks: nat) {
    && i <= ks <= |line| && AllSpace(line[..i])
    && (ks == i || (i + 6 < ks && line[i..i + 6] == "export" && AllSpace(line[i + 6..ks])))
  }

  /** The grammar of one line, without search order: some reading of the line yields this key and raw value. */
  ghost predicate LineMatches(line: string, key: string, raw: string) {
    exists i: nat, ks: nat :: KeyStart(line, i, ks) && KeyedLine(line[ks..], key, raw)
  }

  /** A quoted alternative: the value runs from the start of t to the closing quote QuotedAt finds. */
  function QuotedValue(t: string, q: char): (r: Option<string>)
    ensures r.Some? ==> |r.value| <= |t| && t[..|r.value|] == r.value && Tail(t[|r.value|..])
  {
    match QuotedAt(t, q)
    case Some(e) => Some(t[..e + 1])
    case None => None
  }

  /** The unquoted alternative: the longest run free of `#` and carriage return, when non-empty and the line can end after it. */
  function UnquotedValue(t: string): (r: Option<string>)
    ensures r.Some? ==> |r.value| <= |t| && t[..|r.value|] == r.value && Tail(t[|r.value|..])
  {
    var m := UnquotedEnd(t);
    if 0 < m && Tail(t[m..]) then Some(t[..m]) else None
  }

  /** Tries the value alternatives in priority order on t; the value found is a prefix the line can end after. */
  function ValueAt(t: string): (r: Option<string>)
    ensures r.Some? ==> |r.value| <= |t| && t[..|r.value|] == r.value && Tail(t[|r.value|..])
  {
    if QuotedValue(t, '\'').Some? then QuotedValue(t, '\'')
    else if QuotedValue(t, '"').Some? then QuotedValue(t, '"')
    else if QuotedValue(t, '`').Some? then QuotedValue(t, '`')
    else if UnquotedValue(t).Some? then UnquotedValue(t)
    else if Tail(t) then Some([])
    else None
  }

  /** Whatever ValueAt finds is a value the grammar admits. */
  lemma {:induction false} ValueAtSound(t: string)
    ensures ValueAt(t).Some? ==> IsValueAlt(t, ValueAt(t).value)
  {
    QuotedValueSound(t, '\'');
    QuotedValueSound(t, '"');
    QuotedValueSound(t, '`');
    UnquotedValueSound(t);
  }

  /** A quoted alternative that succeeds is a quoted value span. */
  lemma {:induction false} QuotedValueSound(t: string, q: char)
    requires IsQuote(q)
    ensures QuotedValue(t, q).Some? ==> IsValueAlt(t, QuotedValue(t, q).value)
  {
    if QuotedAt(t, q).Some? {
      QuotedSound(t, q, QuotedAt(t, q).value);
    }
  }

  /** An unquoted alternative that succeeds is an unquoted value span. */
  lemma {:induction false} UnquotedValueSound(t: string)
    ensures UnquotedValue(t).Some? ==> IsValueAlt(t, UnquotedValue(t).value)
  {
    var m := UnquotedEnd(t);
    if 0 < m && Tail(t[m..]) {
      assert t[..m][..m] == t[..m];
      assert UnquotedForm(t[..m]);
    }
  }

  /** A closing position found by QuotedAt delimits a quoted value span. */
  lemma {:induction false} QuotedSound(t: string, q: char, e: nat)
    requires IsQuote(q)
    requires Spaces(t) < |t| && t[Spaces(t)] == q && IsClose(t, Spaces(t), q, e)
    ensures IsValueAlt(t, t[..e + 1]) && QuotedForm(t[..e + 1], q)
  {
    var j := Spaces(t);
    assert j < e < |t| && t[e] == q && BodyOk(t, j + 1, e, q) && Tail(t[e + 1..]);
    var raw := t[..e + 1];
    assert Spaces(raw) == j by {
      PrefixSpaces(t, e + 1);
    }
    BodyOkPrefix(t, e + 1, j + 1, e, q);
    assert raw[j] == q && raw[e] == q;
    assert QuotedForm(raw, q);
    assert t[|raw|..] == t[e + 1..];
    QuotedAlt(t, raw, q);
  }

  /** A quoted span at the start of t after which the line can end is an admissible value. */
  lemma {:induction false} QuotedAlt(t: string, raw: string, q: char)
    requires IsQuote(q) && QuotedForm(raw, q)
    requires |raw| <= |t| && t[..|raw|] == raw && Tail(t[|raw|..])
    ensures IsValueAlt(t, raw)
  {
  }

  /** Leading spaces are unchanged by cutting the string after them. */
  lemma {:induction false} PrefixSpaces(t: string, n: nat)
    requires Spaces(t) < n <= |t|
    ensures Spaces(t[..n]) == Spaces(t)
  {
    var j := Spaces(t);
    assert t[..n][..j] == t[..j];
    SpacesUnique(t[..n], j);
  }

  /** Admissibility of a body only looks inside the body. */
  lemma {:induction false} BodyOkPrefix(t: string, n: nat, lo: nat, hi: nat, q: char)
    requires lo <= hi <= n <= |t|
    ensures BodyOk(t[..n], lo, hi, q) <==> BodyOk(t, lo, hi, q)
  {
    forall i | lo <= i < hi
      ensures EscapedAt(t[..n], lo, i, q) <==> EscapedAt(t, lo, i, q)
    {
      if i > 0 {
        assert t[..n][i - 1] == t[i - 1];
      }
    }
  }

  /** Leading spaces of a prefix that stop inside it are the leading spaces of the whole string. */
  lemma {:induction false} PrefixSpacesBack(t: string, n: nat)
    requires n <= |t| && Spaces(t[..n]) < n
    ensures Spaces(t) == Spaces(t[..n])
  {
    var j := Spaces(t[..n]);
    assert t[..n][..j] == t[..j];
    assert t[..n][j] == t[j];
    SpacesUnique(t, j);
  }

  /** A tail stays a tail when a stretch free of `#` is dropped from its front. */
  lemma {:induction false} TailLater(t: string, a: nat, m: nat)
    requires a <= m <= |t| && Tail(t[a..])
    requires forall i :: a <= i < m ==> t[i] != '#'
    ensures Tail(t[m..])
  {
    var u := t[a..];
    var w := Spaces(u);
    assert a + w >= m by {
      if w < |u| {
        assert t[a + w] == u[w];
      }
    }
    var v := t[m..];
    var n := a + w - m;
    assert AllSpace(v[..n]) by {
      forall x | 0 <= x < n
        ensures IsSpace(v[..n][x])
      {
        assert v[..n][x] == u[..w][m - a + x];
      }
    }
    if n < |v| {
      assert v[n] == u[w];
    }
    SpacesUnique(v, n);
  }

  /** The lazy separator spaces: try k = minK, minK + 1, ... while the skipped characters are spaces. */
  function ValueFrom(r: string, k: nat): (v: Option<string>)
    ensures v.Some? ==> k <= Spaces(r) && |v.value| <= |r| - k
    decreases Spaces(r) + 1 - k
  {
    if Spaces(r) < k then None
    else
      match ValueAt(r[k..])
      case Some(raw) => Some(raw)
      case None => ValueFrom(r, k + 1)
  }

  /** Whatever the lazy separator search finds is an admissible value span. */
  lemma {:induction false} ValueFromSound(r: string, k: nat)
    ensures ValueFrom(r, k).Some? ==> ValueSpan(r, k, ValueFrom(r, k).value)
    decreases Spaces(r) + 1 - k
  {
    if k <= Spaces(r) {
      assert AllSpace(r[..k]) by {
        assert forall i :: 0 <= i < k ==> r[..k][i] == r[..Spaces(r)][i];
      }
      ValueAtSound(r[k..]);
      if ValueAt(r[k..]).None? {
        ValueFromSound(r, k + 1);
      }
    }
  }

  /** The separator and the value after a key: `\s*=` then lazy `\s*?`, or `:` then lazy `\s+?`. */
  function SeparatorValue(rest: string): (v: Option<string>)
    ensures v.Some? ==> |v.value| < |rest|
  {
    var w := Spaces(rest);
    if w < |rest| && rest[w] == '=' then ValueFrom(rest[w + 1..], 0)
    else if 0 < |rest| && rest[0] == ':' then ValueFrom(rest[1..], 1)
    else None
  }

  /** Whatever SeparatorValue finds follows an admissible separator. */
  lemma {:induction false} SeparatorValueSound(rest: string)
    ensures SeparatorValue(rest).Some? ==> exists sep: nat :: SeparatorAt(rest, sep, SeparatorValue(rest).value)
  {
    var w := Spaces(rest);
    if w < |rest| && rest[w] == '=' {
      ValueFromSound(rest[w + 1..], 0);
      if ValueFrom(rest[w + 1..], 0).Some? {
        assert SeparatorAt(rest, w, SeparatorValue(rest).value);
      }
    } else if 0 < |rest| && rest[0] == ':' {
      ValueFromSound(rest[1..], 1);
      if ValueFrom(rest[1..], 1).Some? {
        assert SeparatorAt(rest, 0, SeparatorValue(rest).value);
      }
    }
  }

  /** A key followed by a separator and a value; the key is the maximal run of key characters. */
  function ParseKeyed(s: string): (a: Option<Assignment>)
    ensures a.Some? ==> IsKey(a.value.key) && |a.value.key| == KeyLen(s) && s[..KeyLen(s)] == a.value.key
  {
    var n := KeyLen(s);
    if n == 0 then None
    else
      match SeparatorValue(s[n..])
      case Some(raw) => Some(Assignment(s[..n], raw))
      case None => None
  }

  /** Whatever ParseKeyed finds is a keyed line of the grammar. */
  lemma {:induction false} ParseKeyedSound(s: string)
    ensures ParseKeyed(s).Some? ==> KeyedLine(s, ParseKeyed(s).value.key, ParseKeyed(s).value.raw)
  {
    var n := KeyLen(s);
    if n > 0 {
      SeparatorValueSound(s[n..]);
      if SeparatorValue(s[n..]).Some? {
        KeyedSound(s, SeparatorValue(s[n..]).value);
      }
    }
  }

  /** The maximal key and a separator after it form a keyed line. */
  lemma {:induction false} KeyedSound(s: string, raw: string)
    requires 0 < KeyLen(s) && exists sep: nat :: SeparatorAt(s[KeyLen(s)..], sep, raw)
    ensures KeyedLine(s, s[..KeyLen(s)], raw)
  {
    var sep: nat :| SeparatorAt(s[KeyLen(s)..], sep, raw);
    assert KeyedAt(s, s[..KeyLen(s)], sep, raw);
  }

  /** `export` followed by a space at position i of the line. */
  predicate ExportAt(line: string, i: nat) {
    i + 6 < |line| && line[i..i + 6] == "export" && IsSpace(line[i + 6])
  }

  /** Where the key after an `export` at position i starts: past the spaces that follow the word. */
  function ExportEnd(line: string, i: nat): (ks: nat)
    requires i + 6 <= |line|
    ensures i + 6 <= ks <= |line|
    ensures AllSpace(line[i + 6..ks]) && (ks < |line| ==> !IsSpace(line[ks]))
  {
    var n := Spaces(line[i + 6..]);
    assert line[i + 6..i + 6 + n] == line[i + 6..][..n];
    i + 6 + n
  }

  /**
   * Tokenizes one line. The `export` prefix is tried first; when the rest of the
   * line does not match after it, `export` itself is tried as the key.
   */
  function ParseLine(line: string): (a: Option<Assignment>)
    ensures a.Some? ==> IsKey(a.value.key)
  {
    var i := Spaces(line);
    if ExportAt(line, i) then
      match ParseKeyed(line[ExportEnd(line, i)..])
      case Some(a) => Some(a)
      case None => ParseKeyed(line[i..])
    else ParseKeyed(line[i..])
  }

  /** Whatever ParseLine accepts is a reading of the line under the grammar. */
  lemma {:induction false} ParseLineSound(line: string)
    ensures ParseLine(line).Some? ==> LineMatches(line, ParseLine(line).value.key, ParseLine(line).value.raw)
  {
    var i := Spaces(line);
    if ExportAt(line, i) && ParseKeyed(line[ExportEnd(line, i)..]).Some? {
      ExportShape(line);
      ExportStart(line, i);
      KeyedReading(line, i, ExportEnd(line, i), ParseLine(line));
    } else {
      PlainShape(line);
      KeyedReading(line, i, i, ParseLine(line));
    }
  }

  /** A keyed line at a key start is a reading of the whole line. */
  lemma {:induction false} KeyedReading(line: string, i: nat, ks: nat, a: Option<Assignment>)
    requires KeyStart(line, i, ks) && a == ParseKeyed(line[ks..])
    ensures a.Some? ==> LineMatches(line, a.value.key, a.value.raw)
  {
    ParseKeyedSound(line[ks..]);
  }

  /** The key of an exported line starts after `export` and its spaces. */
  lemma {:induction false} ExportStart(line: string, i: nat)
    requires ExportAt(line, i) && AllSpace(line[..i])
    ensures KeyStart(line, i, ExportEnd(line, i))
  {
  }

  /**
   * The tail test agrees with its pattern `\s*(#.*)?$`: the text splits into
   * spaces followed by the end of the line or by a `#`.
   */
  lemma {:induction false} TailShape(u: string)
    ensures Tail(u) <==> exists w :: 0 <= w <= |u| && AllSpace(u[..w]) && (w == |u| || u[w] == '#')
  {
    if exists w :: 0 <= w <= |u| && AllSpace(u[..w]) && (w == |u| || u[w] == '#') {
      var w :| 0 <= w <= |u| && AllSpace(u[..w]) && (w == |u| || u[w] == '#');
      SpacesUnique(u, w);
    }
  }

  /**
   * After leading spaces, the `export` test holds exactly when the grammar lets
   * the key start past an `export` prefix.
   */
  lemma {:induction false} ExportAtKeyStart(line: string, i: nat)
    requires i <= |line| && AllSpace(line[..i])
    ensures ExportAt(line, i) <==> exists ks: nat :: ks != i && KeyStart(line, i, ks)
  {
    if ExportAt(line, i) {
      ExportStart(line, i);
      assert ExportEnd(line, i) != i;
    }
    if exists ks: nat :: ks != i && KeyStart(line, i, ks) {
      var ks: nat :| ks != i && KeyStart(line, i, ks);
      assert line[i + 6..ks][0] == line[i + 6];
    }
  }

  /** An unquoted run reaches at least as far as any stretch free of `#` and carriage return. */
  lemma {:induction false} UnquotedEndCovers(t: string, n: nat)
    requires n <= |t| && forall i :: 0 <= i < n ==> t[i] != '#' && t[i] != '\r'
    ensures n <= UnquotedEnd(t)
  {
    if n > 0 {
      assert forall i :: 0 <= i < n - 1 ==> t[1..][i] == t[i + 1];
      UnquotedEndCovers(t[1..], n - 1);
    }
  }

  /** Whenever the grammar admits a value at the start of t, ValueAt finds one. */
  lemma {:induction false} ValueAtComplete(t: string, raw: string)
    requires IsValueAlt(t, raw)
    ensures ValueAt(t).Some?
  {
    if |raw| == 0 {
      assert t[|raw|..] == t;
    } else if QuotedForm(raw, '\'') {
      QuotedComplete(t, raw, '\'');
    } else if QuotedForm(raw, '"') {
      QuotedComplete(t, raw, '"');
    } else if QuotedForm(raw, '`') {
      QuotedComplete(t, raw, '`');
    } else {
      assert forall i :: 0 <= i < |raw| ==> t[i] == raw[i];
      UnquotedEndCovers(t, |raw|);
      TailLater(t, |raw|, UnquotedEnd(t));
      assert UnquotedValue(t).Some?;
    }
  }

  /** A quoted value span admitted by the grammar makes its quoted alternative succeed. */
  lemma {:induction false} QuotedComplete(t: string, raw: string, q: char)
    requires |raw| <= |t| && t[..|raw|] == raw && Tail(t[|raw|..]) && QuotedForm(raw, q)
    ensures QuotedAt(t, q).Some? && QuotedValue(t, q).Some?
  {
    var j := Spaces(raw);
    var e := |raw| - 1;
    PrefixSpacesBack(t, |raw|);
    assert t[j] == raw[j] && t[e] == raw[e];
    BodyOkPrefix(t, |raw|, j + 1, e, q);
    assert t[e + 1..] == t[|raw|..];
    assert IsClose(t, j, q, e);
  }

  /** The lazy separator search reaches any admissible number of skipped spaces. */
  lemma {:induction false} ValueFromComplete(r: string, k: nat, k': nat, raw: string)
    requires k <= k' <= Spaces(r) && IsValueAlt(r[k'..], raw)
    ensures ValueFrom(r, k).Some?
    decreases k' - k
  {
    if ValueAt(r[k..]).None? {
      if k == k' {
        ValueAtComplete(r[k'..], raw);
      } else {
        ValueFromComplete(r, k + 1, k', raw);
      }
    }
  }

  /** A value span admitted by the grammar is found by the lazy separator search. */
  lemma {:induction false} ValueSpanComplete(r: string, minK: nat, raw: string)
    requires ValueSpan(r, minK, raw)
    ensures ValueFrom(r, minK).Some?
  {
    var k :| minK <= k <= |r| && AllSpace(r[..k]) && IsValueAlt(r[k..], raw);
    SpacesCovers(r, k);
    ValueFromComplete(r, minK, k, raw);
  }

  /** In a keyed line the key is the maximal run of key characters. */
  lemma {:induction false} KeyedKeyLen(s: string, key: string, sep: nat, raw: string)
    requires KeyedAt(s, key, sep, raw)
    ensures KeyLen(s) == |key|
  {
    var rest := s[|key|..];
    assert s == key + rest;
    if sep > 0 {
      assert rest[..sep][0] == rest[0];
    }
    KeyLenOfKey(key, rest);
  }

  /** Whenever the grammar admits a separator and value, SeparatorValue finds one. */
  lemma {:induction false} SeparatorComplete(rest: string, sep: nat, raw: string)
    requires SeparatorAt(rest, sep, raw)
    ensures SeparatorValue(rest).Some?
  {
    if rest[sep] == '=' {
      SpacesUnique(rest, sep);
      ValueSpanComplete(rest[sep + 1..], 0, raw);
      EqualsFound(rest, sep);
    } else {
      SpacesUnique(rest, 0);
      ValueSpanComplete(rest[1..], 1, raw);
      ColonFound(rest);
    }
  }

  /** An '=' after the leading spaces with a value after it is a separator. */
  lemma {:induction false} EqualsFound(rest: string, w: nat)
    requires Spaces(rest) == w < |rest| && rest[w] == '='
    requires ValueFrom(rest[w + 1..], 0).Some?
    ensures SeparatorValue(rest).Some?
  {
  }

  /** A ':' first with a value after it is a separator when no '=' comes first. */
  lemma {:induction false} ColonFound(rest: string)
    requires 0 < |rest| && rest[0] == ':' && Spaces(rest) == 0
    requires ValueFrom(rest[1..], 1).Some?
    ensures SeparatorValue(rest).Some?
  {
  }

  /** Whenever the grammar admits a keyed line, ParseKeyed accepts it with the same key. */
  lemma {:induction false} ParseKeyedComplete(s: string, key: string, sep: nat, raw: string)
    requires KeyedAt(s, key, sep, raw)
    ensures ParseKeyed(s).Some? && ParseKeyed(s).value.key == key
  {
    KeyedKeyLen(s, key, sep, raw);
    SeparatorComplete(s[|key|..], sep, raw);
  }

  /** Whenever the grammar admits a line, ParseLine accepts it, and with the same key. */
  lemma {:induction false} ParseLineComplete(line: string, key: string, raw: string)
    requires LineMatches(line, key, raw)
    ensures ParseLine(line).Some? && ParseLine(line).value.key == key
  {
    var i: nat, ks: nat :| KeyStart(line, i, ks) && KeyedLine(line[ks..], key, raw);
    var sep: nat :| KeyedAt(line[ks..], key, sep, raw);
    assert line[ks..][..|key|][0] == line[ks];
    KeyStartSpaces(line, i, ks);
    if ks == i {
      PlainComplete(line, key, sep, raw);
    } else {
      ExportedComplete(line, ks, key, sep, raw);
    }
  }

  /** The leading spaces of a reading are all the leading spaces of the line. */
  lemma {:induction false} KeyStartSpaces(line: string, i: nat, ks: nat)
    requires KeyStart(line, i, ks) && ks < |line| && !IsSpace(line[ks])
    ensures Spaces(line) == i
  {
    if ks != i {
      assert line[i..i + 6][0] == line[i];
    }
    SpacesBelow(line, i);
    SpacesCovers(line, i);
  }

  /** A keyed line right after the leading spaces is accepted with its key. */
  lemma {:induction false} PlainComplete(line: string, key: string, sep: nat, raw: string)
    requires KeyedAt(line[Spaces(line)..], key, sep, raw)
    ensures ParseLine(line).Some? && ParseLine(line).value.key == key
  {
    ParseKeyedComplete(line[Spaces(line)..], key, sep, raw);
    if ExportAt(line, Spaces(line)) {
      ExportKeyFallback(line, key, sep, raw);
    }
    PlainShape(line);
  }

  /** Unless a keyed line follows an export prefix, the line is parsed as a plain keyed line. */
  lemma {:induction false} PlainShape(line: string)
    requires ExportAt(line, Spaces(line)) ==> ParseKeyed(line[ExportEnd(line, Spaces(line))..]).None?
    ensures ParseLine(line) == ParseKeyed(line[Spaces(line)..])
  {
  }

  /** When a keyed line follows the export prefix, it is the one parsed. */
  lemma {:induction false} ExportShape(line: string)
    requires ExportAt(line, Spaces(line)) && ParseKeyed(line[ExportEnd(line, Spaces(line))..]).Some?
    ensures ParseLine(line) == ParseKeyed(line[ExportEnd(line, Spaces(line))..])
  {
  }

  /** A keyed line after `export` and spaces is accepted with its key. */
  lemma {:induction false} ExportedComplete(line: string, ks: nat, key: string, sep: nat, raw: string)
    requires KeyStart(line, Spaces(line), ks) && ks != Spaces(line)
    requires KeyedAt(line[ks..], key, sep, raw)
    ensures ParseLine(line).Some? && ParseLine(line).value.key == key
  {
    assert line[ks..][..|key|][0] == line[ks];
    ExportedPosition(line, ks);
    ParseKeyedComplete(line[ks..], key, sep, raw);
    ExportShape(line);
  }

  /** A key start after `export` is where ParseLine looks for the exported key. */
  lemma {:induction false} ExportedPosition(line: string, ks: nat)
    requires KeyStart(line, Spaces(line), ks) && ks != Spaces(line)
    requires ks < |line| && !IsSpace(line[ks])
    ensures ExportAt(line, Spaces(line)) && ExportEnd(line, Spaces(line)) == ks
  {
    var i := Spaces(line);
    assert i + 6 < ks && line[i..i + 6] == "export" && AllSpace(line[i + 6..ks]);
    assert line[i + 6..ks][0] == line[i + 6];
    GapSpaces(line, i + 6, ks);
  }

  /** Spaces from a up to a non-space at ks are the leading spaces of line[a..]. */
  lemma {:induction false} GapSpaces(line: string, a: nat, ks: nat)
    requires a <= ks < |line| && AllSpace(line[a..ks]) && !IsSpace(line[ks])
    ensures Spaces(line[a..]) == ks - a
  {
    var t := line[a..];
    assert t[..ks - a] == line[a..ks];
    assert t[ks - a] == line[ks];
    SpacesUnique(t, ks - a);
  }

  /**
   * When `export` and a space begin a keyed line, the word export is its key, so the
   * separator follows the spaces after it and nothing keyed can start there.
   */
  lemma {:induction false} ExportKeyFallback(line: string, key: string, sep: nat, raw: string)
    requires ExportAt(line, Spaces(line)) && KeyedAt(line[Spaces(line)..], key, sep, raw)
    ensures ParseKeyed(line[ExportEnd(line, Spaces(line))..]).None?
  {
    KeyedKeyLen(line[Spaces(line)..], key, sep, raw);
    ExportKeyLen(line, Spaces(line));
    SeparatorSign(line[Spaces(line)..][|key|..], sep, raw);
    EqualsAfterExport(line, Spaces(line), sep);
  }

  /** The word export followed by a space is a key of six characters. */
  lemma {:induction false} ExportKeyLen(line: string, i: nat)
    requires ExportAt(line, i)
    ensures KeyLen(line[i..]) == 6
  {
    assert line[i..] == "export" + line[i + 6..];
    KeyLenOfKey("export", line[i + 6..]);
  }

  /** An admissible separator is an `=` after the leading spaces or a `:` first. */
  lemma {:induction false} SeparatorSign(rest: string, sep: nat, raw: string)
    requires SeparatorAt(rest, sep, raw)
    ensures sep < |rest|
    ensures (rest[sep] == '=' && Spaces(rest) == sep) || (sep == 0 && rest[0] == ':')
  {
    if rest[sep] == '=' {
      SpacesUnique(rest, sep);
    }
  }

  /** An `=` right after `export` and its spaces leaves nothing keyed after the prefix. */
  lemma {:induction false} EqualsAfterExport(line: string, i: nat, sep: nat)
    requires ExportAt(line, i) && sep < |line[i..][6..]|
    requires (line[i..][6..][sep] == '=' && Spaces(line[i..][6..]) == sep) || (sep == 0 && line[i..][6..][0] == ':')
    ensures ParseKeyed(line[ExportEnd(line, i)..]).None?
  {
    assert line[i..][6..] == line[i + 6..];
    assert line[ExportEnd(line, i)..][0] == '=';
    ParseKeyedNoKey(line[ExportEnd(line, i)..]);
  }

  /** Without a key character in front there is no keyed line. */
  lemma {:induction false} ParseKeyedNoKey(s: string)
    requires |s| == 0 || !IsKeyChar(s[0])
    ensures ParseKeyed(s).None?
  {
  }

  /** The key of a line is determined by the line: no two readings of the grammar disagree on it. */
  lemma {:induction false} KeyDetermined(line: string, k1: string, r1: string, k2: string, r2: string)
    requires LineMatches(line, k1, r1) && LineMatches(line, k2, r2)
    ensures k1 == k2
  {
    ParseLineComplete(line, k1, r1);
    ParseLineComplete(line, k2, r2);
  }

  /** A line whose first non-space character is not a key character (blank and `#` comment lines among them) yields nothing. */
  lemma {:induction false} ParseLineNoKey(line: string)
    requires Spaces(line) == |line| || !IsKeyChar(line[Spaces(line)])
    ensures ParseLine(line).None?
  {
    var i := Spaces(line);
    if i + 6 < |line| {
      assert line[i..i + 6][0] == line[i];
    }
    assert |line[i..]| == 0 || line[i..][0] == line[i];
    ParseKeyedNoKey(line[i..]);
  }
}
