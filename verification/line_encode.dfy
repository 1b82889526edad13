/**
 * Writing lines the decoder reads back. A `LineForm` describes one assignment
 * line piece by piece (indentation, an optional `export` prefix, the key, the
 * separator, the value and how it is quoted, trailing blanks and an optional
 * comment); `RenderLine` lays it out, and `DecodeLineOfRender` shows that the
 * decoder returns exactly the key and value the form was built from.
 */
module LineEncode {
  import opened Wrappers
  import opened Chars
  import opened LineGrammar
  import opened ValueDecode
  import opened Document

  /** How a value is written: as it is, or between two quote characters. */
  datatype Quoting = Bare | Quoted(quote: char)

  /** `=` with blanks on either side, or `:` followed by one or more blanks. */
  datatype Separator = Equals(before: string, after: string) | Colon(after: string)

  /** One assignment line, piece by piece. */
  datatype LineForm = LineForm(
    indent: string,
    exported: Option<string>,
    key: string,
    sep: Separator,
    quoting: Quoting,
    value: string,
    gap: string,
    comment: Option<string>)

  /** The blanks a form may use between its pieces. */
  predicate IsBlank(c: char) {
    c == ' ' || c == '\t'
  }

  predicate AllBlank(s: string) {
    forall i :: 0 <= i < |s| ==> IsBlank(s[i])
  }

  function ExportText(exported: Option<string>): string {
    match exported
    case Some(g) => "export" + g
    case None => ""
  }

  function SepText(sep: Separator): string {
    match sep
    case Equals(b, a) => b + "=" + a
    case Colon(a) => ":" + a
  }

  /** A double-quoted value is written escaped; the other quotes enclose the value as it is. */
  function ValueText(quoting: Quoting, v: string): string {
    match quoting
    case Bare => v
    case Quoted(q) => [q] + (if q == '"' then Escape(v) else v) + [q]
  }

  function CommentText(comment: Option<string>): string {
    match comment
    case Some(c) => "#" + c
    case None => ""
  }

  /** The value, the trailing blanks and the comment. */
  function ValueTail(f: LineForm): string {
    ValueText(f.quoting, f.value) + f.gap + CommentText(f.comment)
  }

  /** The key onwards. */
  function KeyedText(f: LineForm): string {
    f.key + SepText(f.sep) + ValueTail(f)
  }

  /** The whole line. */
  function RenderLine(f: LineForm): string {
    f.indent + ExportText(f.exported) + KeyedText(f)
  }

  /** The blanks left before the value after the lazy separator skips what it must (none after `=`, one after `:`). */
  function LazyBlanks(sep: Separator): string {
    match sep
    case Equals(_, a) => a
    case Colon(a) => if |a| == 0 then a else a[1..]
  }

  predicate SeparatorOk(sep: Separator) {
    match sep
    case Equals(b, a) => AllBlank(b) && AllBlank(a)
    case Colon(a) => |a| > 0 && AllBlank(a)
  }

  /**
   * The value can be written in the chosen way: a bare value holds no `#`,
   * carriage return or line feed and is not blank at either end nor starts
   * with a quote; a quoted value holds no quote of its own kind, a double-quoted
   * one no backslash, the others no line feed; and a comment after a quoted
   * value holds no quote of that kind either.
   */
  predicate ValueOk(quoting: Quoting, v: string, comment: Option<string>) {
    match quoting
    case Bare =>
      && '#' !in v && '\r' !in v && '\n' !in v
      && (|v| > 0 ==> !IsTrimSpace(v[0]) && !IsTrimSpace(v[|v| - 1]) && !IsQuote(v[0]))
    case Quoted(q) =>
      && IsQuote(q) && q !in v
      && (q == '"' ==> '\\' !in v)
      && (q != '"' ==> '\n' !in v)
      && (comment.Some? ==> q !in comment.value)
  }

  /** A form the decoder reads back unchanged. */
  predicate WellFormed(f: LineForm) {
    && AllBlank(f.indent)
    && (f.exported.Some? ==> |f.exported.value| > 0 && AllBlank(f.exported.value))
    && IsKey(f.key)
    && SeparatorOk(f.sep)
    && ValueOk(f.quoting, f.value, f.comment)
    && AllBlank(f.gap)
    && (f.comment.Some? ==> '\n' !in f.comment.value)
  }

  // ---------------------------------------------------------------------------
  // Small facts about blanks and prefixes.
  // ---------------------------------------------------------------------------

  lemma BlanksAreSpaces(s: string)
    requires AllBlank(s)
    ensures AllSpace(s) && AllTrimSpace(s)
  {
  }

  /** A string starting with a non-space has no leading spaces. */
  lemma NoSpaces(s: string)
    requires |s| > 0 && !IsSpace(s[0])
    ensures Spaces(s) == 0
  {
  }

  /** Blanks followed by a non-space: the blanks are the leading spaces. */
  lemma {:induction false} SpacesOfBlanks(w: string, s: string)
    requires AllBlank(w) && |s| > 0 && !IsSpace(s[0])
    ensures Spaces(w + s) == |w|
  {
    BlanksAreSpaces(w);
    SpacesAppend(w, s);
    NoSpaces(s);
  }

  /** Trailing blanks and a comment form a tail the line can end with. */
  lemma {:induction false} TrailerTail(g: string, c: string)
    requires AllBlank(g) && (|c| == 0 || c[0] == '#')
    ensures Tail(g + c)
  {
    BlanksAreSpaces(g);
    SpacesAppend(g, c);
    if |c| > 0 {
      NoSpaces(c);
      assert (g + c)[|g|] == c[0];
    } else {
      assert g + c == g;
      SpacesUnique(g, |g|);
    }
  }

  /** With no later quote character, the right-most closing position is e0. */
  lemma {:induction false} FindCloseAt(t: string, j: nat, q: char, e: nat, e0: nat)
    requires j < e0 <= e < |t| && IsClose(t, j, q, e0)
    requires forall x :: e0 < x <= e ==> t[x] != q
    ensures FindClose(t, j, q, e) == Some(e0)
    decreases e
  {
    if e > e0 {
      assert !IsClose(t, j, q, e);
      FindCloseAt(t, j, q, e - 1, e0);
    }
  }

  // ---------------------------------------------------------------------------
  // The value alternatives on a rendered value.
  // ---------------------------------------------------------------------------

  /** A quoted alternative that closes at e0, with no quote character after e0, is the value read. */
  lemma {:induction false} QuotedPick(t: string, j: nat, q: char, e0: nat)
    requires Spaces(t) == j < |t| && t[j] == q && IsQuote(q) && IsClose(t, j, q, e0)
    requires forall x :: e0 < x < |t| ==> t[x] != q
    ensures ValueAt(t) == Some(t[..e0 + 1])
  {
    FindCloseAt(t, j, q, |t| - 1, e0);
  }

  /** The positions in blanks w followed by a quoted text. */
  lemma {:induction false} QuotedPrefix(w: string, q: char, body: string)
    requires AllBlank(w) && IsQuote(q) && q !in body
    ensures var p := w + ([q] + body + [q]);
      && |p| == |w| + |body| + 2 && p[|w|] == q && p[|p| - 1] == q
      && AllSpace(p[..|w|])
      && forall i :: |w| < i < |p| - 1 ==> p[i] != q
  {
    var r := [q] + body + [q];
    var p := w + r;
    assert p[..|w|] == w;
    BlanksAreSpaces(w);
    forall i | |w| < i < |p| - 1
      ensures p[i] != q
    {
      assert p[i] == r[i - |w|] == body[i - |w| - 1];
    }
  }

  /** A quoted prefix p whose only quote characters are at j and e0, then a tail free of them. */
  lemma {:induction false} QuotedClose(p: string, u: string, j: nat, q: char, e0: nat)
    requires |p| == e0 + 1 && j < e0 && p[j] == q && p[e0] == q && IsQuote(q)
    requires AllSpace(p[..j])
    requires forall i :: j < i < e0 ==> p[i] != q
    requires q !in u && Tail(u)
    ensures var t := p + u;
      && Spaces(t) == j < |t| && t[j] == q && IsClose(t, j, q, e0)
      && (forall x :: e0 < x < |t| ==> t[x] != q) && t[..e0 + 1] == p
  {
    var t := p + u;
    var lo := j + 1;
    assert t[..j] == p[..j];
    SpacesUnique(t, j);
    assert t[..e0 + 1] == p;
    assert t[e0 + 1..] == u;
    forall i | lo <= i < e0
      ensures EscapedAt(t, lo, i, q)
    {
      assert t[i] == p[i];
    }
    forall x | e0 < x < |t|
      ensures t[x] != q
    {
      assert t[x] == u[x - |p|];
    }
  }

  /** A quoted value after blanks is read up to its own closing quote. */
  lemma {:induction false} QuotedRead(w: string, q: char, body: string, u: string)
    requires AllBlank(w) && IsQuote(q) && q !in body
    requires q !in u && Tail(u)
    ensures ValueAt((w + ([q] + body + [q])) + u) == Some(w + ([q] + body + [q]))
  {
    var p := w + ([q] + body + [q]);
    QuotedPrefix(w, q, body);
    QuotedClose(p, u, |w|, q, |p| - 1);
    QuotedPick(p + u, |w|, q, |p| - 1);
  }

  /** When no quote follows the leading spaces, the unquoted run (possibly empty) is the value read. */
  lemma {:induction false} BarePick(t: string, n: nat)
    requires n <= |t| && UnquotedEnd(t) == n && Tail(t[n..])
    requires Spaces(t) == |t| || !IsQuote(t[Spaces(t)])
    ensures ValueAt(t) == Some(t[..n])
  {
    if n == 0 {
      assert t[n..] == t;
    }
  }

  /**
   * A run p free of `#` and carriage return, whose first non-space (if any) is
   * not a quote, followed by nothing or a comment: the run is the value read.
   */
  lemma {:induction false} BareClose(p: string, u: string)
    requires forall i :: 0 <= i < |p| ==> p[i] != '#' && p[i] != '\r'
    requires Spaces(p) < |p| ==> !IsQuote(p[Spaces(p)])
    requires |u| == 0 || u[0] == '#'
    ensures ValueAt(p + u) == Some(p)
  {
    var t := p + u;
    var n := |p|;
    assert t[..n] == p && t[n..] == u;
    forall i | 0 <= i < n
      ensures t[i] != '#' && t[i] != '\r'
    {
      assert t[i] == p[i];
    }
    UnquotedEndCovers(t, n);
    if n < |t| {
      assert t[n] == u[0];
    }
    TrailerTail([], u);
    assert [] + u == u;
    var k := Spaces(p);
    if k < |p| {
      assert t[..k] == p[..k] && t[k] == p[k];
      SpacesUnique(t, k);
    } else {
      assert p[..k] == p;
      SpacesAppend(p, u);
      if |u| > 0 {
        NoSpaces(u);
        assert t[n] == u[0];
      } else {
        assert t == p;
      }
    }
    BarePick(t, n);
  }

  /** The run of blanks, bare value and blanks meets the conditions of BareClose. */
  lemma {:induction false} BarePrefix(w: string, v: string, g: string)
    requires AllBlank(w) && AllBlank(g) && '#' !in v && '\r' !in v
    requires |v| > 0 ==> !IsSpace(v[0]) && !IsQuote(v[0])
    ensures var p := w + v + g;
      && (forall i :: 0 <= i < |p| ==> p[i] != '#' && p[i] != '\r')
      && (Spaces(p) < |p| ==> !IsQuote(p[Spaces(p)]))
  {
    var p := w + v + g;
    forall i | 0 <= i < |p|
      ensures p[i] != '#' && p[i] != '\r'
    {
      if i < |w| {
        assert p[i] == w[i];
      } else if i < |w| + |v| {
        assert p[i] == v[i - |w|];
      } else {
        assert p[i] == g[i - |w| - |v|];
      }
    }
    if |v| > 0 {
      assert p == w + (v + g);
      SpacesOfBlanks(w, v + g);
      assert p[|w|] == v[0];
    } else {
      assert p == w + g;
      BlanksAreSpaces(w + g);
      assert p[..|p|] == p;
      SpacesUnique(p, |p|);
    }
  }

  /** A bare value after blanks is read with the trailing blanks, up to the comment. */
  lemma {:induction false} BareRead(w: string, v: string, g: string, u: string)
    requires AllBlank(w) && AllBlank(g) && '#' !in v && '\r' !in v
    requires |v| > 0 ==> !IsSpace(v[0]) && !IsQuote(v[0])
    requires |u| == 0 || u[0] == '#'
    ensures ValueAt((w + v + g) + u) == Some(w + v + g)
  {
    BarePrefix(w, v, g);
    BareClose(w + v + g, u);
  }

  /** The two ways a value tail after blanks is grouped when it is read. */
  lemma Regroup(w: string, x: string, g: string, c: string)
    ensures w + (x + g + c) == (w + x + g) + c
    ensures w + (x + g + c) == (w + x) + (g + c)
  {
  }

  /** After blanks w, the value tail of a well-formed form is read and decodes to its value. */
  lemma {:induction false} ValueTailRead(w: string, f: LineForm)
    requires AllBlank(w) && WellFormed(f)
    ensures ValueAt(w + ValueTail(f)).Some?
    ensures DecodeValue(ValueAt(w + ValueTail(f)).value) == f.value
  {
    match f.quoting
    case Bare =>
      BareTailRead(w, f.value, f.gap, f.comment);
    case Quoted(q) =>
      QuotedTailRead(w, q, f.value, f.gap, f.comment);
  }

  /** A bare value, blanks and a comment after blanks w: the value is read and decodes back. */
  lemma {:induction false} BareTailRead(w: string, v: string, g: string, comment: Option<string>)
    requires AllBlank(w) && AllBlank(g) && ValueOk(Bare, v, comment)
    ensures ValueAt(w + (ValueText(Bare, v) + g + CommentText(comment))).Some?
    ensures DecodeValue(ValueAt(w + (ValueText(Bare, v) + g + CommentText(comment))).value) == v
  {
    var c := CommentText(comment);
    Regroup(w, v, g, c);
    BareRead(w, v, g, c);
    BareDecode(w, v, g);
  }

  /** A quoted value, blanks and a comment after blanks w: the value is read and decodes back. */
  lemma {:induction false} QuotedTailRead(w: string, q: char, v: string, g: string, comment: Option<string>)
    requires AllBlank(w) && AllBlank(g) && ValueOk(Quoted(q), v, comment)
    ensures ValueAt(w + (ValueText(Quoted(q), v) + g + CommentText(comment))).Some?
    ensures DecodeValue(ValueAt(w + (ValueText(Quoted(q), v) + g + CommentText(comment))).value) == v
  {
    var body := if q == '"' then Escape(v) else v;
    var c := CommentText(comment);
    Regroup(w, [q] + body + [q], g, c);
    QuotedBody(q, v, comment);
    QuotedTrailer(q, g, comment);
    QuotedRead(w, q, body, g + c);
    QuotedDecode(w, q, v);
  }

  /** Blanks, a bare value and blanks decode to the value. */
  lemma {:induction false} BareDecode(w: string, v: string, g: string)
    requires AllBlank(w) && AllBlank(g)
    requires |v| > 0 ==> !IsTrimSpace(v[0]) && !IsTrimSpace(v[|v| - 1]) && !IsQuote(v[0])
    ensures DecodeValue(w + v + g) == v
  {
    BlanksAreSpaces(w);
    BlanksAreSpaces(g);
    if |v| > 0 {
      DecodeBare(w, v, g);
    } else {
      assert w + v + g == w + g;
      BlanksAreSpaces(w + g);
    }
  }

  /** Blanks and a quoted value, escaped when the quote is a double quote, decode to the value. */
  lemma {:induction false} QuotedDecode(w: string, q: char, v: string)
    requires AllBlank(w) && IsQuote(q) && (q == '"' ==> '\\' !in v)
    ensures DecodeValue(w + ([q] + (if q == '"' then Escape(v) else v) + [q])) == v
  {
    var body := if q == '"' then Escape(v) else v;
    BlanksAreSpaces(w);
    assert w + ([q] + body + [q]) == w + [q] + body + [q] + [];
    DecodeQuoted(w, q, body, q, []);
    if q == '"' {
      ExpandEscape(v);
    }
  }

  /** The written body of a quoted value holds no quote of its kind. */
  lemma QuotedBody(q: char, v: string, comment: Option<string>)
    requires ValueOk(Quoted(q), v, comment)
    ensures q !in (if q == '"' then Escape(v) else v)
  {
    if q == '"' {
      EscapeAvoids(v, q);
    }
  }

  /** What follows a quoted value is a tail free of its quote kind. */
  lemma {:induction false} QuotedTrailer(q: char, g: string, comment: Option<string>)
    requires IsQuote(q) && AllBlank(g) && (comment.Some? ==> q !in comment.value)
    ensures q !in g + CommentText(comment) && Tail(g + CommentText(comment))
  {
    TrailerTail(g, CommentText(comment));
    assert q !in g by {
      forall i | 0 <= i < |g|
        ensures g[i] != q
      {
        assert IsBlank(g[i]);
      }
    }
  }

  // ---------------------------------------------------------------------------
  // Separator, key and line.
  // ---------------------------------------------------------------------------

  /** An `=` after the leading spaces: the value is searched for right after it. */
  lemma EqualsPick(rest: string, b: nat)
    requires Spaces(rest) == b < |rest| && rest[b] == '='
    ensures SeparatorValue(rest) == ValueFrom(rest[b + 1..], 0)
  {
    var w := Spaces(rest);
    assert w < |rest| && rest[w] == '=';
  }

  /** A leading `:`: the value is searched for from one character past it. */
  lemma ColonPick(rest: string)
    requires |rest| > 0 && rest[0] == ':'
    ensures SeparatorValue(rest) == ValueFrom(rest[1..], 1)
  {
    NoSpaces(rest);
  }

  /** The lazy search stops at the first position where a value is found. */
  lemma ValueFromFirst(r: string, k: nat)
    requires k <= Spaces(r) && ValueAt(r[k..]).Some?
    ensures ValueFrom(r, k) == ValueAt(r[k..])
  {
  }

  /** After blanks, `=` and blanks, the value is read right after the second blanks. */
  lemma {:induction false} EqualsRead(b: string, a: string, t: string)
    requires AllBlank(b) && ValueAt(a + t).Some?
    ensures SeparatorValue(b + "=" + a + t) == ValueAt(a + t)
  {
    var r := a + t;
    var rest := b + "=" + a + t;
    assert rest == b + (['='] + r);
    SpacesOfBlanks(b, ['='] + r);
    assert rest[|b|] == '=';
    assert rest[|b| + 1..] == r;
    EqualsPick(rest, |b|);
    assert r[0..] == r;
    ValueFromFirst(r, 0);
  }

  /** A string starting with a blank has at least one leading space. */
  lemma BlankFirst(r: string)
    requires |r| > 0 && IsBlank(r[0])
    ensures 1 <= Spaces(r)
  {
  }

  /** Dropping the first character of a concatenation drops it from the first part. */
  lemma DropFirst(a: string, t: string)
    requires |a| > 0
    ensures (a + t)[1..] == a[1..] + t
  {
  }

  /** After `:` and one or more blanks, the value is read after the first blank. */
  lemma {:induction false} ColonRead(a: string, t: string)
    requires |a| > 0 && AllBlank(a) && ValueAt(a[1..] + t).Some?
    ensures SeparatorValue(":" + a + t) == ValueAt(a[1..] + t)
  {
    var r := a + t;
    var u := a[1..] + t;
    var rest := ":" + a + t;
    assert rest == [':'] + r;
    assert rest[1..] == r;
    ColonPick(rest);
    assert r[0] == a[0];
    BlankFirst(r);
    DropFirst(a, t);
    ValueFromFirst(r, 1);
  }

  /** After a rendered separator, the lazy search reads the value right after the lazy blanks. */
  lemma {:induction false} SeparatorRead(sep: Separator, t: string)
    requires SeparatorOk(sep) && ValueAt(LazyBlanks(sep) + t).Some?
    ensures SeparatorValue(SepText(sep) + t) == ValueAt(LazyBlanks(sep) + t)
  {
    match sep
    case Equals(b, a) =>
      EqualsRead(b, a, t);
    case Colon(a) =>
      ColonRead(a, t);
  }

  /** A key followed by a non-key character and a separator with a value: ParseKeyed reads both. */
  lemma {:induction false} KeyPick(key: string, rest: string)
    requires IsKey(key) && |rest| > 0 && !IsKeyChar(rest[0]) && SeparatorValue(rest).Some?
    ensures ParseKeyed(key + rest) == Some(Assignment(key, SeparatorValue(rest).value))
  {
    var s := key + rest;
    KeyLenOfKey(key, rest);
    assert s[..|key|] == key && s[|key|..] == rest;
  }

  /** A rendered separator starts with a character that cannot continue a key. */
  lemma SepFirst(sep: Separator, t: string)
    requires SeparatorOk(sep)
    ensures |SepText(sep) + t| > 0 && !IsKeyChar((SepText(sep) + t)[0])
  {
    match sep
    case Equals(b, a) =>
      if |b| > 0 {
        assert (SepText(sep) + t)[0] == b[0];
      } else {
        assert (SepText(sep) + t)[0] == '=';
      }
    case Colon(a) =>
      assert (SepText(sep) + t)[0] == ':';
  }

  /** The blanks left before the value after the lazy separator skips what it must are blanks. */
  lemma LazyBlanksOk(sep: Separator)
    requires SeparatorOk(sep)
    ensures AllBlank(LazyBlanks(sep))
  {
    if sep.Colon? && |sep.after| > 0 {
      assert forall i :: 0 <= i < |sep.after| - 1 ==> sep.after[1..][i] == sep.after[i + 1];
    }
  }

  /** The key of a well-formed form is read whole, and its value decodes back. */
  lemma {:induction false} KeyedRead(f: LineForm)
    requires WellFormed(f)
    ensures ParseKeyed(KeyedText(f)).Some?
    ensures ParseKeyed(KeyedText(f)).value.key == f.key
    ensures DecodeValue(ParseKeyed(KeyedText(f)).value.raw) == f.value
  {
    var t := ValueTail(f);
    var rest := SepText(f.sep) + t;
    Assoc(f.key, SepText(f.sep), t);
    LazyBlanksOk(f.sep);
    ValueTailRead(LazyBlanks(f.sep), f);
    SeparatorRead(f.sep, t);
    SepFirst(f.sep, t);
    KeyPick(f.key, rest);
  }

  lemma Assoc(a: string, b: string, c: string)
    ensures a + b + c == a + (b + c)
  {
  }

  /** Blanks before a non-space: they are the leading spaces, and what follows them is the rest. */
  lemma {:induction false} AfterBlanks(w: string, x: string)
    requires AllBlank(w) && |x| > 0 && !IsSpace(x[0])
    ensures Spaces(w + x) == |w| && (w + x)[|w|..] == x
  {
    SpacesOfBlanks(w, x);
  }

  /** Where the export word with blanks g sits at position i, the key starts right after g. */
  lemma {:induction false} ExportPositions(line: string, i: nat, g: string, s: string)
    requires i <= |line| && line[i..] == "export" + g + s
    requires |g| > 0 && AllBlank(g) && |s| > 0 && !IsSpace(s[0])
    ensures ExportAt(line, i)
    ensures line[ExportEnd(line, i)..] == s
  {
    var x := line[i..];
    assert x[..6] == "export" && x[6..] == g + s;
    assert line[i..i + 6] == x[..6];
    assert line[i + 6..] == x[6..];
    assert line[i + 6] == g[0];
    AfterBlanks(g, s);
    assert line[i + 6 + |g|..] == (g + s)[|g|..];
    assert ExportEnd(line, i) == i + 6 + |g|;
  }

  /** A line whose key start follows an export prefix is read from the key start. */
  lemma {:induction false} ExportedLineRead(line: string, i: nat, g: string, s: string)
    requires Spaces(line) == i && line[i..] == "export" + g + s
    requires |g| > 0 && AllBlank(g) && |s| > 0 && !IsSpace(s[0]) && ParseKeyed(s).Some?
    ensures ParseLine(line) == ParseKeyed(s)
  {
    ExportPositions(line, i, g, s);
    ExportShape(line);
  }

  /** A line with a keyed text right after its leading spaces is read from there. */
  lemma {:induction false} PlainLineRead(line: string, i: nat, s: string)
    requires Spaces(line) == i && line[i..] == s && ParseKeyed(s).Some?
    ensures ParseLine(line) == ParseKeyed(s)
  {
    if ExportAt(line, i) {
      var a := ParseKeyed(s).value;
      ParseKeyedSound(s);
      var sep :| KeyedAt(s, a.key, sep, a.raw);
      ExportKeyFallback(line, a.key, sep, a.raw);
    }
    PlainShape(line);
  }

  /** Indentation and the export prefix in front of a keyed text: ParseLine reads the keyed text. */
  lemma {:induction false} LineRead(indent: string, exported: Option<string>, s: string)
    requires AllBlank(indent)
    requires exported.Some? ==> |exported.value| > 0 && AllBlank(exported.value)
    requires |s| > 0 && IsKeyChar(s[0]) && ParseKeyed(s).Some?
    ensures ParseLine(indent + ExportText(exported) + s) == ParseKeyed(s)
  {
    var x := ExportText(exported) + s;
    Assoc(indent, ExportText(exported), s);
    var line := indent + x;
    assert x[0] == (if exported.Some? then 'e' else s[0]);
    AfterBlanks(indent, x);
    match exported
    case Some(g) =>
      ExportedLineRead(line, |indent|, g, s);
    case None =>
      assert x == s;
      PlainLineRead(line, |indent|, s);
  }

  /** The decoder reads a rendered well-formed line back as its key and value. */
  lemma {:induction false} DecodeLineOfRender(f: LineForm)
    requires WellFormed(f)
    ensures DecodeLine(RenderLine(f)) == Some((f.key, f.value))
  {
    KeyedRead(f);
    assert KeyedText(f)[0] == f.key[0];
    LineRead(f.indent, f.exported, KeyedText(f));
  }

  // ---------------------------------------------------------------------------
  // Whole documents.
  // ---------------------------------------------------------------------------

  /** The lines of a sequence of forms. */
  function RenderLines(fs: seq<LineForm>): (ls: seq<string>)
    ensures |ls| == |fs|
    ensures forall i :: 0 <= i < |fs| ==> ls[i] == RenderLine(fs[i])
  {
    seq(|fs|, i requires 0 <= i < |fs| => RenderLine(fs[i]))
  }

  /** A document with one rendered line per form. */
  function RenderDocument(fs: seq<LineForm>): string
    requires |fs| >= 1
  {
    JoinLines(RenderLines(fs))
  }

  predicate AllWellFormed(fs: seq<LineForm>) {
    forall i :: 0 <= i < |fs| ==> WellFormed(fs[i])
  }

  /** The decoder cuts a rendered document back into its lines, and line i assigns form i's key and value. */
  lemma {:induction false} RenderDocumentAssignments(fs: seq<LineForm>)
    requires |fs| >= 1 && AllWellFormed(fs)
    ensures Lines(RenderDocument(fs)) == RenderLines(fs)
    ensures AssignsForms(Assignments(DecodeLine, Lines(RenderDocument(fs))), fs)
  {
    var ls := RenderLines(fs);
    forall i | 0 <= i < |ls|
      ensures '\n' !in ls[i]
    {
      RenderLineSingle(fs[i]);
    }
    LinesOfJoinLines(ls);
    forall i | 0 <= i < |fs|
      ensures DecodeLine(ls[i]) == Some((fs[i].key, fs[i].value))
    {
      DecodeLineOfRender(fs[i]);
    }
  }

  /** A document of one rendered well-formed line defines exactly the form's key, with its value. */
  lemma {:induction false} EnvFileOfForm(f: LineForm)
    requires WellFormed(f)
    ensures EnvFile(RenderLine(f)).value == map[f.key := f.value]
  {
    RenderLineSingle(f);
    EnvFileOfLine(RenderLine(f));
    DecodeLineOfRender(f);
    FoldOne(Some((f.key, f.value)));
  }

  /** Assignment i is form i's key and value. */
  predicate AssignsForms(xs: seq<Option<(string, string)>>, fs: seq<LineForm>) {
    |xs| == |fs| && forall i :: 0 <= i < |fs| ==> xs[i] == Some((fs[i].key, fs[i].value))
  }

  /** Folding the forms' assignments defines exactly the forms' keys. */
  lemma {:induction false} FoldFormsKeys(xs: seq<Option<(string, string)>>, fs: seq<LineForm>, k: string)
    requires AssignsForms(xs, fs)
    ensures k in Fold(xs) <==> exists i :: 0 <= i < |fs| && fs[i].key == k
  {
    FoldKeys(xs, k);
    if exists i :: 0 <= i < |fs| && fs[i].key == k {
      var i :| 0 <= i < |fs| && fs[i].key == k;
      assert Assigns(xs, i, k);
    }
    if exists i :: 0 <= i < |xs| && Assigns(xs, i, k) {
      var i :| 0 <= i < |xs| && Assigns(xs, i, k);
      assert fs[i].key == k;
    }
  }

  /** Folding the forms' assignments gives a key the value of the last form for it. */
  lemma {:induction false} FoldFormsValue(xs: seq<Option<(string, string)>>, fs: seq<LineForm>, i: nat)
    requires AssignsForms(xs, fs) && i < |fs|
    requires forall j :: i < j < |fs| ==> fs[j].key != fs[i].key
    ensures fs[i].key in Fold(xs) && Fold(xs)[fs[i].key] == fs[i].value
  {
    forall j | i < j < |xs|
      ensures !Assigns(xs, j, fs[i].key)
    {
    }
    FoldLast(xs, i, fs[i].key);
  }

  /** A rendered document defines exactly the keys of its forms. */
  lemma {:induction false} RenderDocumentKeys(fs: seq<LineForm>, k: string)
    requires |fs| >= 1 && AllWellFormed(fs)
    ensures k in EnvFile(RenderDocument(fs)).value <==> exists i :: 0 <= i < |fs| && fs[i].key == k
  {
    var xs := Assignments(DecodeLine, Lines(RenderDocument(fs)));
    RenderDocumentAssignments(fs);
    FoldFormsKeys(xs, fs, k);
  }

  /** In a rendered document, a key takes the value of the last form for it. */
  lemma {:induction false} RenderDocumentValue(fs: seq<LineForm>, i: nat)
    requires |fs| >= 1 && AllWellFormed(fs) && i < |fs|
    requires forall j :: i < j < |fs| ==> fs[j].key != fs[i].key
    ensures fs[i].key in EnvFile(RenderDocument(fs)).value
    ensures EnvFile(RenderDocument(fs)).value[fs[i].key] == fs[i].value
  {
    var xs := Assignments(DecodeLine, Lines(RenderDocument(fs)));
    RenderDocumentAssignments(fs);
    FoldFormsValue(xs, fs, i);
  }

  /** A character in neither part is not in their concatenation. */
  lemma NotInAppend(d: char, a: string, b: string)
    requires d !in a && d !in b
    ensures d !in a + b
  {
  }

  lemma BlanksNoLineFeed(w: string)
    requires AllBlank(w)
    ensures '\n' !in w
  {
    forall i | 0 <= i < |w|
      ensures w[i] != '\n'
    {
      assert IsBlank(w[i]);
    }
  }

  /** No piece of a well-formed form holds a line feed. */
  lemma {:induction false} PiecesSingle(f: LineForm)
    requires WellFormed(f)
    ensures '\n' !in f.indent && '\n' !in ExportText(f.exported) && '\n' !in f.key
    ensures '\n' !in SepText(f.sep) && '\n' !in ValueText(f.quoting, f.value)
    ensures '\n' !in f.gap && '\n' !in CommentText(f.comment)
  {
    BlanksNoLineFeed(f.indent);
    BlanksNoLineFeed(f.gap);
    if f.exported.Some? {
      BlanksNoLineFeed(f.exported.value);
      NotInAppend('\n', "export", f.exported.value);
    }
    assert '\n' !in f.key by {
      forall i | 0 <= i < |f.key|
        ensures f.key[i] != '\n'
      {
        assert IsKeyChar(f.key[i]);
      }
    }
    match f.sep {
      case Equals(b, a) =>
        BlanksNoLineFeed(b);
        BlanksNoLineFeed(a);
        NotInAppend('\n', b, "=");
        NotInAppend('\n', b + "=", a);
      case Colon(a) =>
        BlanksNoLineFeed(a);
        NotInAppend('\n', ":", a);
    }
    match f.quoting {
      case Bare =>
      case Quoted(q) =>
        var body := if q == '"' then Escape(f.value) else f.value;
        if q == '"' {
          EscapeNoLineFeed(f.value);
        }
        NotInAppend('\n', [q], body);
        NotInAppend('\n', [q] + body, [q]);
    }
    if f.comment.Some? {
      NotInAppend('\n', "#", f.comment.value);
    }
  }

  /** A rendered well-formed line holds no line feed, so it stays one line of a document. */
  lemma {:induction false} RenderLineSingle(f: LineForm)
    requires WellFormed(f)
    ensures '\n' !in RenderLine(f)
  {
    PiecesSingle(f);
    var v := ValueText(f.quoting, f.value);
    NotInAppend('\n', v, f.gap);
    NotInAppend('\n', v + f.gap, CommentText(f.comment));
    var t := ValueTail(f);
    NotInAppend('\n', f.key, SepText(f.sep));
    NotInAppend('\n', f.key + SepText(f.sep), t);
    NotInAppend('\n', f.indent, ExportText(f.exported));
    NotInAppend('\n', f.indent + ExportText(f.exported), KeyedText(f));
  }

  /** Escaping adds only backslashes and escape letters, so it keeps out what was out. */
  lemma EscapeAvoids(s: string, d: char)
    requires d != '\\' && d != 'n' && d != 'r' && d !in s
    ensures d !in Escape(s)
  {
    EscapeCharAvoids(s, '\r', 'r', d);
    EscapeCharAvoids(EscapeChar(s, '\r', 'r'), '\n', 'n', d);
  }

  /** Escaping takes out every line feed. */
  lemma EscapeNoLineFeed(s: string)
    ensures '\n' !in Escape(s)
  {
    EscapeCharAvoids(EscapeChar(s, '\r', 'r'), '\n', 'n', '\n');
  }

  /** EscapeChar adds only backslashes and c, and takes out every x. */
  lemma {:induction false} EscapeCharAvoids(s: string, x: char, c: char, d: char)
    requires d != '\\' && d != c
    requires d in s ==> d == x
    ensures d !in EscapeChar(s, x, c)
  {
    if |s| > 0 {
      assert d in s[1..] ==> d in s;
      EscapeCharAvoids(s[1..], x, c, d);
    }
  }
}
