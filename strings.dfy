/**
  The few Python `str` operations that the Aozora cleaner relies on, over
  `string` (= `seq<char>`): whitespace, `strip`/`rstrip`, `startswith`,
  `endswith`, the `in` substring test, `split` on one character and `join`.
 */
module Strings {

  /** The characters Python's `str.isspace` accepts, which are also the
      characters that `strip()` and `rstrip()` without arguments remove. */
  predicate IsSpace(c: char) {
    c == ' ' || ('\t' <= c <= '\r') || ('\U{1C}' <= c <= '\U{1F}')
    || c == '\U{85}' || c == '\U{A0}' || c == '\U{1680}'
    || ('\U{2000}' <= c <= '\U{200A}') || c == '\U{2028}' || c == '\U{2029}'
    || c == '\U{202F}' || c == '\U{205F}' || c == '\U{3000}'
  }

  /** `s.strip()` is empty, that is, `s` is falsy after stripping. */
  predicate IsBlank(s: string) {
    forall i :: 0 <= i < |s| ==> IsSpace(s[i])
  }

  /** `s.startswith(prefix)` */
  predicate StartsWith(s: string, prefix: string) {
    |prefix| <= |s| && s[..|prefix|] == prefix
  }

  /** `s.endswith(suffix)` */
  predicate EndsWith(s: string, suffix: string) {
    |suffix| <= |s| && s[|s| - |suffix|..] == suffix
  }

  /** `pat in s` */
  predicate Contains(s: string, pat: string) {
    exists i :: 0 <= i <= |s| - |pat| && StartsWith(s[i..], pat)
  }

  /** `s.rstrip()`: the longest prefix of `s` that does not end in whitespace,
      and everything after it is whitespace. */
  function RStrip(s: string): (r: string)
    ensures r <= s
    ensures r == [] || !IsSpace(r[|r| - 1])
    ensures forall i :: |r| <= i < |s| ==> IsSpace(s[i])
    ensures r == [] <==> IsBlank(s)
    decreases |s|
  {
    if s != [] && IsSpace(s[|s| - 1]) then RStrip(s[..|s| - 1]) else s
  }

  /** `sep.join(ls)` */
  function Join(ls: seq<string>, sep: string): string
    decreases |ls|
  {
    if |ls| == 0 then []
    else if |ls| == 1 then ls[0]
    else ls[0] + sep + Join(ls[1..], sep)
  }

  /** The sum of the lengths of the strings in `ls`. */
  function TotalLength(ls: seq<string>): nat
    decreases |ls|
  {
    if ls == [] then 0 else |ls[0]| + TotalLength(ls[1..])
  }

  /** `s.split(sep)` for a one-character separator: the pieces between the
      separators, never none, none containing the separator, and joining
      them back with the separator gives `s` again. */
  function Split(s: string, sep: char): (r: seq<string>)
    ensures |r| > 0
    ensures forall k :: 0 <= k < |r| ==> sep !in r[k]
    ensures Join(r, [sep]) == s
    decreases |s|
  {
    if s == [] then [[]]
    else
      var rest := Split(s[1..], sep);
      if s[0] == sep then
        assert ([[]] + rest)[1..] == rest;
        [[]] + rest
      else
        var r := [[s[0]] + rest[0]] + rest[1..];
        assert r[1..] == rest[1..];
        assert |rest| > 1 ==> Join(rest, [sep]) == rest[0] + [sep] + Join(rest[1..], [sep]);
        assert s == [s[0]] + s[1..];
        r
  }

  /** A piece without the separator is split off whole. */
  lemma {:induction false} SplitAfter(a: string, b: string, sep: char)
    requires sep !in a
    ensures Split(a + [sep] + b, sep) == [a] + Split(b, sep)
    decreases |a|
  {
    var s := a + [sep] + b;
    if a == [] {
      assert s[0] == sep && s[1..] == b;
    } else {
      assert s[0] == a[0] && s[1..] == a[1..] + [sep] + b;
      SplitAfter(a[1..], b, sep);
      assert [a[0]] + a[1..] == a;
    }
  }

  /** A string without the separator splits into itself. */
  lemma {:induction false} SplitWhole(a: string, sep: char)
    requires sep !in a
    ensures Split(a, sep) == [a]
    decreases |a|
  {
    if a != [] {
      SplitWhole(a[1..], sep);
      assert [a[0]] + a[1..] == a;
    }
  }

  /** Splitting inverts joining: pieces free of the separator are recovered. */
  lemma {:induction false} SplitJoin(ls: seq<string>, sep: char)
    requires |ls| > 0
    requires forall k :: 0 <= k < |ls| ==> sep !in ls[k]
    ensures Split(Join(ls, [sep]), sep) == ls
    decreases |ls|
  {
    if |ls| == 1 {
      SplitWhole(ls[0], sep);
    } else {
      SplitJoin(ls[1..], sep);
      SplitAfter(ls[0], Join(ls[1..], [sep]), sep);
      assert [ls[0]] + ls[1..] == ls;
    }
  }

  /** Joining non-empty pieces that avoid a one-character separator never
      gives a string that begins or ends with the separator or holds it twice
      in a row. */
  lemma {:induction false} JoinShape(ls: seq<string>, sep: char)
    requires forall k :: 0 <= k < |ls| ==> ls[k] != [] && sep !in ls[k]
    ensures var r := Join(ls, [sep]); r == [] || (r[0] != sep && r[|r| - 1] != sep)
    ensures var r := Join(ls, [sep]); forall i :: 0 <= i < |r| - 1 ==> !(r[i] == sep && r[i + 1] == sep)
    decreases |ls|
  {
    if |ls| > 1 {
      var a, j := ls[0], Join(ls[1..], [sep]);
      JoinShape(ls[1..], sep);
      assert ls[1..][0] == ls[1];
      assert j != [] by { JoinStartsWith(ls[1..], [sep]); }
      var r := a + [sep] + j;
      assert r == Join(ls, [sep]);
      forall i | 0 <= i < |r| - 1
        ensures !(r[i] == sep && r[i + 1] == sep)
      {
        if i + 1 < |a| {
          assert r[i] == a[i];
        } else if i + 1 == |a| {
          assert r[i] == a[i];
        } else if i == |a| {
          assert r[i + 1] == j[0];
        } else {
          assert r[i] == j[i - |a| - 1] && r[i + 1] == j[i - |a|];
        }
      }
    }
  }

  /** A non-empty join begins with its first piece. */
  lemma {:induction false} JoinStartsWith(ls: seq<string>, sep: string)
    requires |ls| > 0
    ensures ls[0] <= Join(ls, sep)
  {
  }

  /** A character found in no piece and not in the separator is not in the join. */
  lemma {:induction false} JoinAvoids(ls: seq<string>, sep: string, c: char)
    requires c !in sep
    requires forall k :: 0 <= k < |ls| ==> c !in ls[k]
    ensures c !in Join(ls, sep)
    decreases |ls|
  {
    if |ls| > 1 {
      JoinAvoids(ls[1..], sep, c);
    }
  }

  /** The length of a join is the total length of the pieces plus one
      separator between each neighbouring pair. */
  lemma {:induction false} JoinLength(ls: seq<string>, sep: string)
    requires |ls| > 0
    ensures |Join(ls, sep)| == TotalLength(ls) + (|ls| - 1) * |sep|
    decreases |ls|
  {
    if |ls| > 1 {
      JoinLength(ls[1..], sep);
    }
  }

  /** Every character of a piece of a join occurs in the join. */
  lemma {:induction false} JoinHolds(ls: seq<string>, sep: string, j: nat)
    requires j < |ls|
    ensures forall x :: x in ls[j] ==> x in Join(ls, sep)
    decreases |ls|
  {
    if |ls| > 1 && j > 0 {
      JoinHolds(ls[1..], sep, j - 1);
    }
  }

  /** A character missing from a string is missing from every piece of its split. */
  lemma SplitAvoids(s: string, sep: char, c: char)
    requires c !in s
    ensures forall k :: 0 <= k < |Split(s, sep)| ==> c !in Split(s, sep)[k]
  {
    var r := Split(s, sep);
    forall k | 0 <= k < |r| ensures c !in r[k] {
      JoinHolds(r, [sep], k);
    }
  }

  // The four lemmas below state plain facts about sequences that Dafny
  // proves on its own. They are not properties of the cleaner: calling them
  // hands the solver exactly the step it needs inside larger proofs about
  // `RemoveSpans` and `KeepLines`, which keeps those proofs fast.

  /** Taking the first character off a concatenation with a non-empty front. */
  lemma AppendTail<T>(u: seq<T>, v: seq<T>)
    requires u != []
    ensures (u + v)[0] == u[0] && (u + v)[1..] == u[1..] + v
  {
  }

  /** Putting the first character back in front. */
  lemma ConsAppend<T>(u: seq<T>, w: seq<T>)
    requires u != []
    ensures [u[0]] + (u[1..] + w) == u + w
  {
    assert [u[0]] + u[1..] == u;
  }

  /** A suffix of a concatenation after taking off its first character. */
  lemma AppendTailSuffix<T>(u: seq<T>, v: seq<T>, i: nat)
    requires i < |u|
    ensures (u[1..] + v)[i..] == (u + v)[i + 1..]
  {
  }

  /** Concatenation is associative. */
  lemma AppendAssoc<T>(x: seq<T>, y: seq<T>, z: seq<T>)
    ensures x + (y + z) == (x + y) + z
  {
  }
}
