/**
 * The environment handed to the child process: the inherited environment
 * followed by one NAME=VALUE entry per decoded key, in the order in which
 * the map happens to be enumerated. Go leaves that order unspecified, so it
 * is a parameter here, constrained only to list every key exactly once.
 */
module Environ {
  import opened Chars
  import opened Document

  /** One environment entry for a key and its value: the entry splits into the key, `=`, and the value. */
  function Render(k: string, v: string): (e: string)
    ensures |e| == |k| + 1 + |v| && e[..|k|] == k && e[|k|] == '=' && e[|k| + 1..] == v
  {
    k + "=" + v
  }

  /** No key occurs twice in the sequence. */
  predicate Distinct(o: seq<string>)
  {
    forall i, j :: 0 <= i < j < |o| ==> o[i] != o[j]
  }

  /** Every key of o is a key of m. */
  predicate AllIn(o: seq<string>, m: map<string, string>)
  {
    forall i :: 0 <= i < |o| ==> o[i] in m
  }

  /** o lists the keys of m, each exactly once, in some order. */
  predicate IsEnumeration(o: seq<string>, m: map<string, string>)
  {
    && Distinct(o)
    && AllIn(o, m)
    && (forall k :: k in m ==> k in o)
  }

  /** The entries for the keys of o, in that order. */
  function Rendered(m: map<string, string>, o: seq<string>): (es: seq<string>)
    requires AllIn(o, m)
    ensures |es| == |o|
    ensures forall i :: 0 <= i < |o| ==> es[i] == Render(o[i], m[o[i]])
  {
    if |o| == 0 then [] else [Render(o[0], m[o[0]])] + Rendered(m, o[1..])
  }

  /**
   * The environment built from the inherited entries and the decoded map,
   * when the map is enumerated in the order o.
   */
  function BuildEnviron(inherited: seq<string>, m: map<string, string>, o: seq<string>): (env: seq<string>)
    requires IsEnumeration(o, m)
    ensures |env| == |inherited| + |m|
    ensures env[..|inherited|] == inherited
    ensures forall k :: k in m ==> Render(k, m[k]) in env[|inherited|..]
    ensures forall e :: e in env[|inherited|..] ==> exists k :: k in m && e == Render(k, m[k])
  {
    EnumerationSize(o, m);
    var es := Rendered(m, o);
    assert forall k :: k in m ==> Render(k, m[k]) in es by {
      forall k | k in m
        ensures Render(k, m[k]) in es
      {
        var i :| 0 <= i < |o| && o[i] == k;
        assert es[i] == Render(k, m[k]);
      }
    }
    assert (inherited + es)[|inherited|..] == es;
    inherited + es
  }

  /**
   * The same environment built by picking the keys one at a time in an
   * arbitrary order; the order chosen is returned alongside.
   */
  method BuildEnvironAnyOrder(inherited: seq<string>, m: map<string, string>) returns (env: seq<string>, o: seq<string>)
    ensures IsEnumeration(o, m)
    ensures env == BuildEnviron(inherited, m, o)
  {
    env := inherited;
    o := [];
    var rest := m.Keys;
    while rest != {}
      invariant Picking(inherited, m, o, rest, env)
      decreases |rest|
    {
      var k :| k in rest;
      PickingStep(inherited, m, o, rest, env, k);
      env := env + [Render(k, m[k])];
      o := o + [k];
      rest := rest - {k};
    }
  }

  /**
   * Midway through BuildEnvironAnyOrder: o lists the keys picked so far, once
   * each, rest holds the others, and env is the inherited entries followed by
   * the picked keys' entries.
   */
  ghost predicate Picking(inherited: seq<string>, m: map<string, string>, o: seq<string>, rest: set<string>, env: seq<string>) {
    && rest <= m.Keys
    && Distinct(o)
    && AllIn(o, m)
    && (forall i :: 0 <= i < |o| ==> o[i] !in rest)
    && (forall k :: k in m ==> k in o || k in rest)
    && env == inherited + Rendered(m, o)
  }

  /** Picking one more key keeps the midway state. */
  lemma PickingStep(inherited: seq<string>, m: map<string, string>, o: seq<string>, rest: set<string>, env: seq<string>, k: string)
    requires Picking(inherited, m, o, rest, env) && k in rest
    ensures Picking(inherited, m, o + [k], rest - {k}, env + [Render(k, m[k])])
  {
    var e := Render(k, m[k]);
    RenderedSnoc(m, o, k);
    assert env + [e] == inherited + (Rendered(m, o) + [e]);
    DistinctSnoc(o, k);
    var o' := o + [k];
    forall i | 0 <= i < |o'|
      ensures o'[i] !in rest - {k}
    {
      if i < |o| {
        assert o'[i] == o[i];
      }
    }
  }

  // ---------------------------------------------------------------------------
  // Lemmas.
  // ---------------------------------------------------------------------------

  /** A distinct sequence extended by a new key stays distinct. */
  lemma DistinctSnoc(o: seq<string>, k: string)
    requires Distinct(o) && k !in o
    ensures Distinct(o + [k])
  {
    var o' := o + [k];
    forall i, j | 0 <= i < j < |o'|
      ensures o'[i] != o'[j]
    {
      assert o'[i] == o[i];
      if j < |o| {
        assert o'[j] == o[j];
      }
    }
  }

  /** A distinct sequence holds each of its elements once. */
  lemma {:induction false} DistinctMultiset(o: seq<string>, x: string)
    requires Distinct(o)
    ensures multiset(o)[x] == if x in o then 1 else 0
  {
    if |o| > 0 {
      var t := o[1..];
      assert Distinct(t) by {
        forall i, j | 0 <= i < j < |t|
          ensures t[i] != t[j]
        {
          assert t[i] == o[i + 1] && t[j] == o[j + 1];
        }
      }
      DistinctMultiset(t, x);
      assert o == [o[0]] + t;
      if x == o[0] {
        assert x !in t by {
          forall i | 0 <= i < |t|
            ensures t[i] != x
          {
            assert t[i] == o[i + 1];
          }
        }
      }
    }
  }

  /** Two enumerations of the same map hold the same keys with the same multiplicities. */
  lemma EnumerationsAgree(o1: seq<string>, o2: seq<string>, m: map<string, string>)
    requires IsEnumeration(o1, m) && IsEnumeration(o2, m)
    ensures multiset(o1) == multiset(o2)
  {
    forall x
      ensures multiset(o1)[x] == multiset(o2)[x]
    {
      DistinctMultiset(o1, x);
      DistinctMultiset(o2, x);
    }
  }

  /** An enumeration of m is as long as m has keys. */
  lemma EnumerationSize(o: seq<string>, m: map<string, string>)
    requires IsEnumeration(o, m)
    ensures |o| == |m|
  {
    forall x
      ensures multiset(o)[x] == multiset(m.Keys)[x]
    {
      DistinctMultiset(o, x);
    }
    assert multiset(o) == multiset(m.Keys);
    assert |o| == |multiset(o)| == |multiset(m.Keys)| == |m.Keys|;
  }

  /** The entries of two runs of keys are those of each run, in order. */
  lemma RenderedAppend(m: map<string, string>, a: seq<string>, b: seq<string>)
    requires AllIn(a, m)
    requires AllIn(b, m)
    ensures AllIn(a + b, m)
    ensures Rendered(m, a + b) == Rendered(m, a) + Rendered(m, b)
  {
    forall i | 0 <= i < |a + b|
      ensures (a + b)[i] in m
    {
      if i < |a| {
        assert (a + b)[i] == a[i];
      } else {
        assert (a + b)[i] == b[i - |a|];
      }
    }
    var l := Rendered(m, a + b);
    var r := Rendered(m, a) + Rendered(m, b);
    forall i | 0 <= i < |l|
      ensures l[i] == r[i]
    {
      if i < |a| {
        assert (a + b)[i] == a[i];
      } else {
        assert (a + b)[i] == b[i - |a|];
      }
    }
  }

  /** Extending a run of keys by one key appends that key's entry. */
  lemma RenderedSnoc(m: map<string, string>, o: seq<string>, k: string)
    requires AllIn(o, m)
    requires k in m
    ensures AllIn(o + [k], m)
    ensures Rendered(m, o + [k]) == Rendered(m, o) + [Render(k, m[k])]
  {
    RenderedAppend(m, o, [k]);
  }

  /** Taking the same element out of two sequences with equal multisets leaves equal multisets. */
  lemma RemoveMatching(o1: seq<string>, o2: seq<string>, j: nat)
    requires |o1| > 0 && j < |o2| && o2[j] == o1[0]
    requires multiset(o1) == multiset(o2)
    ensures multiset(o1[1..]) == multiset(o2[..j] + o2[j + 1..])
  {
    var x, a, b := o1[0], o2[..j], o2[j + 1..];
    assert o1 == [x] + o1[1..];
    assert o2 == a + [x] + b;
    assert multiset(a + b) == multiset(a) + multiset(b);
    forall y
      ensures multiset(o1[1..])[y] == multiset(a + b)[y]
    {
      assert multiset(o1)[y] == multiset{x}[y] + multiset(o1[1..])[y];
      assert multiset(o2)[y] == multiset(a)[y] + multiset{x}[y] + multiset(b)[y];
    }
  }

  /** The entries of a run of keys are the entry of key j and the entries of the rest. */
  lemma RenderedSplit(m: map<string, string>, o: seq<string>, j: nat)
    requires AllIn(o, m)
    requires j < |o|
    ensures AllIn(o[..j] + o[j + 1..], m)
    ensures multiset(Rendered(m, o)) == multiset(Rendered(m, o[..j] + o[j + 1..])) + multiset{Render(o[j], m[o[j]])}
  {
    var a, b := o[..j], o[j + 1..];
    assert o == (a + [o[j]]) + b;
    RenderedAppend(m, a, b);
    RenderedAppend(m, a, [o[j]]);
    RenderedAppend(m, a + [o[j]], b);
  }

  /** The entries of a non-empty run of keys are the first key's entry and the entries of the rest. */
  lemma RenderedCons(m: map<string, string>, o: seq<string>)
    requires AllIn(o, m) && |o| > 0
    ensures multiset(Rendered(m, o)) == multiset(Rendered(m, o[1..])) + multiset{Render(o[0], m[o[0]])}
  {
    assert Rendered(m, o) == [Render(o[0], m[o[0]])] + Rendered(m, o[1..]);
  }

  /** Keys with the same multiplicities give entries with the same multiplicities. */
  lemma {:induction false} RenderedPermutation(m: map<string, string>, o1: seq<string>, o2: seq<string>)
    requires AllIn(o1, m)
    requires AllIn(o2, m)
    requires multiset(o1) == multiset(o2)
    ensures multiset(Rendered(m, o1)) == multiset(Rendered(m, o2))
    decreases |o1|
  {
    if |o1| == 0 {
      assert |o2| == |multiset(o2)| == 0;
    } else {
      var x := o1[0];
      assert x in multiset(o2);
      var j :| 0 <= j < |o2| && o2[j] == x;
      var rest := o2[..j] + o2[j + 1..];
      RemoveMatching(o1, o2, j);
      RenderedSplit(m, o2, j);
      RenderedPermutation(m, o1[1..], rest);
      RenderedCons(m, o1);
    }
  }

  /**
   * The enumeration order changes only the order of the appended entries:
   * any two orders give environments holding the same entries equally often.
   */
  lemma EnvironPermutation(inherited: seq<string>, m: map<string, string>, o1: seq<string>, o2: seq<string>)
    requires IsEnumeration(o1, m) && IsEnumeration(o2, m)
    ensures multiset(BuildEnviron(inherited, m, o1)) == multiset(BuildEnviron(inherited, m, o2))
  {
    EnumerationsAgree(o1, o2, m);
    RenderedPermutation(m, o1, o2);
  }

  /**
   * Nothing is deduplicated: an inherited entry for a name the map also
   * defines stays in place, and the map's entry follows it.
   */
  lemma EnvironKeepsShadowed(inherited: seq<string>, m: map<string, string>, o: seq<string>, i: nat, k: string)
    requires IsEnumeration(o, m)
    requires i < |inherited| && k in m
    ensures BuildEnviron(inherited, m, o)[i] == inherited[i]
    ensures exists j :: |inherited| <= j < |BuildEnviron(inherited, m, o)| && BuildEnviron(inherited, m, o)[j] == Render(k, m[k])
  {
    var env := BuildEnviron(inherited, m, o);
    assert env[..|inherited|][i] == env[i];
    var s := env[|inherited|..];
    var j :| 0 <= j < |s| && s[j] == Render(k, m[k]);
    assert env[|inherited| + j] == s[j];
  }

  /** In the entry of a key without `=`, the first `=` follows the key. */
  lemma FirstEquals(k: string, v: string)
    requires '=' !in k
    ensures |k| < |Render(k, v)| && Render(k, v)[|k|] == '='
    ensures forall i :: 0 <= i < |k| ==> Render(k, v)[i] != '='
  {
    assert forall i :: 0 <= i < |k| ==> Render(k, v)[i] == k[i];
  }

  /** Where no key holds `=`, an entry tells its key and value apart. */
  lemma RenderInjective(k1: string, v1: string, k2: string, v2: string)
    requires '=' !in k1 && '=' !in k2
    requires Render(k1, v1) == Render(k2, v2)
    ensures k1 == k2 && v1 == v2
  {
    var e := Render(k1, v1);
    FirstEquals(k1, v1);
    FirstEquals(k2, v2);
    assert |k1| == |k2|;
    assert k1 == e[..|k1|] && k2 == e[..|k2|];
    assert v1 == e[|k1| + 1..] && v2 == e[|k2| + 1..];
  }

  /** No key of m holds `=`, as for every key the decoder returns. */
  predicate PlainKeys(m: map<string, string>) {
    forall k :: k in m ==> '=' !in k
  }

  /** Distinct keys without `=` give distinct entries. */
  lemma RenderedDistinct(m: map<string, string>, o: seq<string>)
    requires AllIn(o, m) && Distinct(o) && PlainKeys(m)
    ensures Distinct(Rendered(m, o))
  {
    var es := Rendered(m, o);
    forall i, j | 0 <= i < j < |es|
      ensures es[i] != es[j]
    {
      if es[i] == es[j] {
        RenderInjective(o[i], m[o[i]], o[j], m[o[j]]);
      }
    }
  }

  /**
   * Where no key holds `=`, each key's entry occurs exactly once among the
   * appended entries, whatever the enumeration order.
   */
  lemma EnvironEntriesOnce(inherited: seq<string>, m: map<string, string>, o: seq<string>, k: string)
    requires IsEnumeration(o, m) && PlainKeys(m) && k in m
    ensures multiset(BuildEnviron(inherited, m, o)[|inherited|..])[Render(k, m[k])] == 1
  {
    var env := BuildEnviron(inherited, m, o);
    assert env[|inherited|..] == Rendered(m, o);
    RenderedDistinct(m, o);
    DistinctMultiset(Rendered(m, o), Render(k, m[k]));
  }

  /** Keys of the decoder hold no `=`. */
  lemma DecodedKeysPlain(doc: string)
    ensures PlainKeys(EnvFile(doc).value)
  {
    forall k | k in EnvFile(doc).value
      ensures '=' !in k
    {
      EnvFileKeysAreKeys(doc, k);
      assert forall i :: 0 <= i < |k| ==> IsKeyChar(k[i]);
    }
  }

  /**
   * The environment for a decoded document: the inherited entries, then each
   * decoded key's entry exactly once, whatever order the map is enumerated in.
   */
  lemma DecodedEnvironOnce(doc: string, inherited: seq<string>, o: seq<string>, k: string)
    requires IsEnumeration(o, EnvFile(doc).value) && k in EnvFile(doc).value
    ensures var m := EnvFile(doc).value;
      multiset(BuildEnviron(inherited, m, o)[|inherited|..])[Render(k, m[k])] == 1
  {
    DecodedKeysPlain(doc);
    EnvironEntriesOnce(inherited, EnvFile(doc).value, o, k);
  }
}
