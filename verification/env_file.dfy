/**
 * The document decoder: the document is cut into lines at line feeds, each
 * line is tokenized and its value decoded, and the assignments are folded
 * into a map in document order, so that a later assignment to a key
 * overwrites an earlier one.
 */
module Document {
  import opened Wrappers
  import opened Chars
  import opened LineGrammar
  import opened ValueDecode

  /** The error the decoder declares; no input produces it. */
  datatype ParseError = ParseError

  /** The lines of a document: k line feeds give k + 1 lines, none holding a line feed. */
  function Lines(doc: string): (ls: seq<string>)
    ensures |ls| >= 1
    ensures forall i :: 0 <= i < |ls| ==> '\n' !in ls[i]
  {
    if |doc| == 0 then [""]
    else
      var rest := Lines(doc[1..]);
      if doc[0] == '\n' then [""] + rest
      else
        assert forall i :: 1 <= i < |rest| ==> ([[doc[0]] + rest[0]] + rest[1..])[i] == rest[i];
        [[doc[0]] + rest[0]] + rest[1..]
  }

  /** Lines glued back together with line feeds. */
  function JoinLines(ls: seq<string>): (doc: string)
    requires |ls| >= 1
    ensures |doc| >= |ls| - 1
  {
    if |ls| == 1 then ls[0] else ls[0] + "\n" + JoinLines(ls[1..])
  }

  /** Tokenizes one line and decodes its value: the key and value it assigns, if any. */
  function DecodeLine(line: string): (r: Option<(string, string)>)
    ensures r.Some? <==> ParseLine(line).Some?
    ensures r.Some? ==> r.value.0 == ParseLine(line).value.key && IsKey(r.value.0)
  {
    match ParseLine(line)
    case Some(a) => Some((a.key, DecodeValue(a.raw)))
    case None => None
  }

  /**
   * What each line assigns, in document order, under a line decoder; the
   * document decoder uses DecodeLine.
   */
  function Assignments(decode: string -> Option<(string, string)>, ls: seq<string>): (xs: seq<Option<(string, string)>>)
    ensures |xs| == |ls|
    ensures forall i :: 0 <= i < |ls| ==> xs[i] == decode(ls[i])
  {
    if |ls| == 0 then [] else [decode(ls[0])] + Assignments(decode, ls[1..])
  }

  /** The assignments folded left to right into a map; a later one overwrites an earlier one. */
  function Fold(xs: seq<Option<(string, string)>>): (m: map<string, string>)
    ensures |m| <= |xs|
  {
    if |xs| == 0 then map[]
    else
      var m := Fold(xs[..|xs| - 1]);
      match xs[|xs| - 1]
      case Some(kv) => m[kv.0 := kv.1]
      case None => m
  }

  /** Decodes a document. The result is never a failure. */
  function EnvFile(doc: string): (r: Result<map<string, string>, ParseError>)
    ensures r.Success?
  {
    Success(Fold(Assignments(DecodeLine, Lines(doc))))
  }

  // ---------------------------------------------------------------------------
  // Lines and JoinLines are inverse.
  // ---------------------------------------------------------------------------

  /** A document with k line feeds has k + 1 lines. */
  lemma {:induction false} LinesCount(doc: string)
    ensures |Lines(doc)| == multiset(doc)['\n'] + 1
  {
    if |doc| > 0 {
      assert doc == [doc[0]] + doc[1..];
      assert multiset(doc) == multiset([doc[0]]) + multiset(doc[1..]);
      LinesCount(doc[1..]);
    }
  }

  /** Joining the lines of a document gives the document back. */
  lemma {:induction false} JoinLinesOfLines(doc: string)
    ensures JoinLines(Lines(doc)) == doc
  {
    if |doc| > 0 {
      var rest := Lines(doc[1..]);
      JoinLinesOfLines(doc[1..]);
      if doc[0] == '\n' {
        assert Lines(doc)[1..] == rest;
      } else {
        var ls := Lines(doc);
        if |rest| == 1 {
          assert ls == [[doc[0]] + rest[0]];
        } else {
          assert ls[1..] == rest[1..];
          assert JoinLines(rest) == rest[0] + "\n" + JoinLines(rest[1..]);
        }
      }
    }
  }

  /** Cutting a join of line-feed-free lines gives the lines back. */
  lemma {:induction false} LinesOfJoinLines(ls: seq<string>)
    requires |ls| >= 1
    requires forall i :: 0 <= i < |ls| ==> '\n' !in ls[i]
    ensures Lines(JoinLines(ls)) == ls
  {
    if |ls| == 1 {
      LinesOfLine(ls[0]);
    } else {
      LinesOfJoinLines(ls[1..]);
      LinesAfterLine(ls[0], JoinLines(ls[1..]));
    }
  }

  /** A string without line feeds is one line. */
  lemma {:induction false} LinesOfLine(line: string)
    requires '\n' !in line
    ensures Lines(line) == [line]
  {
    if |line| > 0 {
      assert '\n' !in line[1..] by {
        assert forall k :: 0 <= k < |line| - 1 ==> line[1..][k] == line[k + 1];
      }
      LinesOfLine(line[1..]);
      assert [line[0]] + line[1..] == line;
    }
  }

  /** A line without line feeds, a line feed, and a document: the line comes first. */
  lemma {:induction false} LinesAfterLine(line: string, doc: string)
    requires '\n' !in line
    ensures Lines(line + "\n" + doc) == [line] + Lines(doc)
  {
    var s := line + "\n" + doc;
    if |line| == 0 {
      assert s[0] == '\n' && s[1..] == doc;
    } else {
      assert '\n' !in line[1..] by {
        assert forall k :: 0 <= k < |line| - 1 ==> line[1..][k] == line[k + 1];
      }
      assert s[1..] == line[1..] + "\n" + doc;
      LinesAfterLine(line[1..], doc);
      assert [line[0]] + line[1..] == line;
    }
  }

  /** The lines of two documents joined by a line feed are the lines of each, in order. */
  lemma {:induction false} LinesConcat(d1: string, d2: string)
    ensures Lines(d1 + "\n" + d2) == Lines(d1) + Lines(d2)
  {
    var ls := Lines(d1);
    JoinLinesOfLines(d1);
    JoinAppend(ls, d2);
    assert JoinLines(ls + Lines(d2)) == d1 + "\n" + JoinLines(Lines(d2));
    JoinLinesOfLines(d2);
    LinesOfJoinLines(ls + Lines(d2));
  }

  /** Joining a list extended by the lines of d2 is joining the list, a line feed and d2's lines. */
  lemma {:induction false} JoinAppend(ls: seq<string>, d2: string)
    requires |ls| >= 1
    ensures JoinLines(ls + Lines(d2)) == JoinLines(ls) + "\n" + JoinLines(Lines(d2))
  {
    if |ls| == 1 {
      assert (ls + Lines(d2))[1..] == Lines(d2);
    } else {
      assert (ls + Lines(d2))[1..] == ls[1..] + Lines(d2);
      JoinAppend(ls[1..], d2);
    }
  }

  // ---------------------------------------------------------------------------
  // The fold: which keys are present, and which assignment supplies each value.
  // ---------------------------------------------------------------------------

  /** Assignment i is to key k. */
  predicate Assigns(xs: seq<Option<(string, string)>>, i: int, k: string)
    requires 0 <= i < |xs|
  {
    xs[i].Some? && xs[i].value.0 == k
  }

  /** A key is in the folded map exactly when some assignment is to it. */
  lemma {:induction false} FoldKeys(xs: seq<Option<(string, string)>>, k: string)
    ensures k in Fold(xs) <==> exists i :: 0 <= i < |xs| && Assigns(xs, i, k)
  {
    if |xs| > 0 {
      var init := xs[..|xs| - 1];
      FoldKeys(init, k);
      if Assigns(xs, |xs| - 1, k) {
        assert k in Fold(xs);
      }
      if exists i :: 0 <= i < |xs| && Assigns(xs, i, k) {
        var i :| 0 <= i < |xs| && Assigns(xs, i, k);
        if i < |init| {
          assert init[i] == xs[i];
          assert Assigns(init, i, k);
        }
      }
      if exists i :: 0 <= i < |init| && Assigns(init, i, k) {
        var i :| 0 <= i < |init| && Assigns(init, i, k);
        assert init[i] == xs[i];
        assert Assigns(xs, i, k);
      }
    }
  }

  /** The value of a key comes from the last assignment to it. */
  lemma {:induction false} FoldLast(xs: seq<Option<(string, string)>>, i: nat, k: string)
    requires i < |xs| && Assigns(xs, i, k)
    requires forall j :: i < j < |xs| ==> !Assigns(xs, j, k)
    ensures k in Fold(xs) && Fold(xs)[k] == xs[i].value.1
  {
    var init := xs[..|xs| - 1];
    if i < |xs| - 1 {
      assert init[i] == xs[i];
      forall j | i < j < |init|
        ensures !Assigns(init, j, k)
      {
        assert init[j] == xs[j];
        assert !Assigns(xs, j, k);
      }
      FoldLast(init, i, k);
      assert !Assigns(xs, |xs| - 1, k);
    }
  }

  /** Folding two runs of assignments lays the second run's map over the first's. */
  lemma {:induction false} FoldAppend(a: seq<Option<(string, string)>>, b: seq<Option<(string, string)>>)
    ensures Fold(a + b) == Fold(a) + Fold(b)
  {
    if |b| == 0 {
      assert a + b == a;
    } else {
      var b' := b[..|b| - 1];
      assert (a + b)[..|a + b| - 1] == a + b';
      assert (a + b)[|a + b| - 1] == b[|b| - 1];
      FoldAppend(a, b');
    }
  }

  /** The assignments of two runs of lines are those of each run, in order. */
  lemma {:induction false} AssignmentsAppend(decode: string -> Option<(string, string)>, a: seq<string>, b: seq<string>)
    ensures Assignments(decode, a + b) == Assignments(decode, a) + Assignments(decode, b)
  {
    var l := Assignments(decode, a + b);
    var r := Assignments(decode, a) + Assignments(decode, b);
    assert |l| == |r|;
    forall i | 0 <= i < |l|
      ensures l[i] == r[i]
    {
      if i < |a| {
        assert (a + b)[i] == a[i];
      } else {
        assert (a + b)[i] == b[i - |a|];
      }
    }
  }

  /** Decoding two documents joined by a line feed overlays the second's map on the first's. */
  lemma {:induction false} EnvFileConcat(d1: string, d2: string)
    ensures EnvFile(d1 + "\n" + d2).value == EnvFile(d1).value + EnvFile(d2).value
  {
    LinesConcat(d1, d2);
    AssignmentsAppend(DecodeLine, Lines(d1), Lines(d2));
    FoldAppend(Assignments(DecodeLine, Lines(d1)), Assignments(DecodeLine, Lines(d2)));
  }

  /** The fold of a single assignment. */
  lemma {:induction false} FoldOne(o: Option<(string, string)>)
    ensures Fold([o]) == if o.Some? then map[o.value.0 := o.value.1] else map[]
  {
    assert [o][..0] == [];
  }

  /** The map of a single line: empty, or the one assignment the line makes. */
  lemma {:induction false} EnvFileOfLine(line: string)
    requires '\n' !in line
    ensures EnvFile(line).value == Fold([DecodeLine(line)])
  {
    LinesOfLine(line);
    assert Assignments(DecodeLine, [line]) == [DecodeLine(line)];
  }

  /** A line that assigns nothing (blank, comment, no separator) leaves the map unchanged. */
  lemma {:induction false} EnvFileIgnoresLine(doc: string, line: string)
    requires '\n' !in line && ParseLine(line).None?
    ensures EnvFile(doc + "\n" + line).value == EnvFile(doc).value
  {
    var d := DecodeLine(line);
    assert d.None?;
    EnvFileConcat(doc, line);
    EnvFileOfLine(line);
    FoldOne(d);
    OverlayNone(EnvFile(doc).value);
  }

  /** A later assignment to a key overrides an earlier one. */
  lemma {:induction false} EnvFileLaterWins(doc: string, line: string)
    requires '\n' !in line && DecodeLine(line).Some?
    ensures var kv := DecodeLine(line).value;
      EnvFile(doc + "\n" + line).value == EnvFile(doc).value[kv.0 := kv.1]
  {
    var kv := DecodeLine(line).value;
    EnvFileConcat(doc, line);
    EnvFileOfLine(line);
    FoldOne(DecodeLine(line));
    OverlayOne(EnvFile(doc).value, kv.0, kv.1);
  }

  /** Laying the empty map over m leaves m. */
  lemma OverlayNone(m: map<string, string>)
    ensures m + map[] == m
  {
  }

  /** Laying a one-entry map over m is updating m at that entry. */
  lemma OverlayOne(m: map<string, string>, k: string, v: string)
    ensures m + map[k := v] == m[k := v]
  {
  }

  /** A line decodes to an assignment to k exactly when the grammar admits it with key k. */
  lemma {:induction false} DecodeLineKey(line: string, k: string)
    ensures (DecodeLine(line).Some? && DecodeLine(line).value.0 == k) <==> exists raw :: LineMatches(line, k, raw)
  {
    if DecodeLine(line).Some? && DecodeLine(line).value.0 == k {
      ParseLineSound(line);
    }
    if exists raw :: LineMatches(line, k, raw) {
      var raw :| LineMatches(line, k, raw);
      ParseLineComplete(line, k, raw);
    }
  }

  /**
   * A line assigns nothing exactly when the grammar has no reading of it; when
   * it assigns, the key and the decoded value come from one grammatical reading.
   */
  lemma {:induction false} DecodeLineValue(line: string)
    ensures DecodeLine(line).None? <==> forall k, raw :: !LineMatches(line, k, raw)
    ensures DecodeLine(line).Some? ==>
      exists raw :: LineMatches(line, DecodeLine(line).value.0, raw) && DecodeLine(line).value.1 == DecodeValue(raw)
  {
    ParseLineSound(line);
    if exists k, raw :: LineMatches(line, k, raw) {
      var k, raw :| LineMatches(line, k, raw);
      ParseLineComplete(line, k, raw);
    }
  }

  /** Every key of the decoded document is the key of a line the grammar admits. */
  lemma {:induction false} EnvFileKeysSound(doc: string, k: string)
    requires k in EnvFile(doc).value
    ensures exists i, raw :: 0 <= i < |Lines(doc)| && LineMatches(Lines(doc)[i], k, raw)
  {
    var ls := Lines(doc);
    var xs := Assignments(DecodeLine, ls);
    FoldKeys(xs, k);
    var i :| 0 <= i < |xs| && Assigns(xs, i, k);
    DecodeLineKey(ls[i], k);
    var raw :| LineMatches(ls[i], k, raw);
    assert 0 <= i < |ls| && LineMatches(ls[i], k, raw);
  }

  /** The key of every line the grammar admits is a key of the decoded document. */
  lemma {:induction false} EnvFileKeysComplete(doc: string, i: nat, k: string, raw: string)
    requires i < |Lines(doc)| && LineMatches(Lines(doc)[i], k, raw)
    ensures k in EnvFile(doc).value
  {
    var ls := Lines(doc);
    var xs := Assignments(DecodeLine, ls);
    FoldKeys(xs, k);
    DecodeLineKey(ls[i], k);
    assert Assigns(xs, i, k);
  }

  /**
   * The keys of the decoded document are exactly the keys of the lines the
   * grammar admits, with no search order involved.
   */
  lemma {:induction false} EnvFileKeys(doc: string, k: string)
    ensures k in EnvFile(doc).value <==>
      exists i, raw :: 0 <= i < |Lines(doc)| && LineMatches(Lines(doc)[i], k, raw)
  {
    if k in EnvFile(doc).value {
      EnvFileKeysSound(doc, k);
    } else if exists i, raw :: 0 <= i < |Lines(doc)| && LineMatches(Lines(doc)[i], k, raw) {
      var i, raw :| 0 <= i < |Lines(doc)| && LineMatches(Lines(doc)[i], k, raw);
      EnvFileKeysComplete(doc, i, k, raw);
    }
  }

  /** The value of a key is the decoded value of the last line that assigns it. */
  lemma {:induction false} EnvFileValue(doc: string, i: nat, k: string)
    requires i < |Lines(doc)| && DecodeLine(Lines(doc)[i]).Some? && DecodeLine(Lines(doc)[i]).value.0 == k
    requires forall j :: i < j < |Lines(doc)| ==> DecodeLine(Lines(doc)[j]).None? || DecodeLine(Lines(doc)[j]).value.0 != k
    ensures k in EnvFile(doc).value
    ensures EnvFile(doc).value[k] == DecodeValue(ParseLine(Lines(doc)[i]).value.raw)
  {
    var xs := Assignments(DecodeLine, Lines(doc));
    FoldLast(xs, i, k);
  }

  /** Every key the decoder returns is a key token. */
  lemma {:induction false} EnvFileKeysAreKeys(doc: string, k: string)
    requires k in EnvFile(doc).value
    ensures IsKey(k)
  {
    var xs := Assignments(DecodeLine, Lines(doc));
    FoldKeys(xs, k);
    var i :| 0 <= i < |xs| && Assigns(xs, i, k);
    assert xs[i] == DecodeLine(Lines(doc)[i]);
  }
}
