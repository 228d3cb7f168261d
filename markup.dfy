/**
  The three markup-removal stages of the Aozora Bunko cleaner.

  Reading annotations (ruby) are written `《…》`, editorial notes `［＃…］`,
  and `｜` marks where the text that a ruby annotation reads begins. The
  first two are removed with a regular-expression substitution of the shape
  `open [^close]+ close`; this module models such a substitution as one
  left-to-right scanner, `RemoveSpans`, and the third stage as `RemoveChar`.
 */
module Markup {
  import opened Strings

  /** 《 (U+300A) opens a reading annotation. */
  const RubyOpen: string := "\U{300A}"
  /** 》 (U+300B) closes it. */
  const RubyClose: char := '\U{300B}'
  /** ［＃ (U+FF3B U+FF03) opens an editorial note. */
  const NoteOpen: string := "\U{FF3B}\U{FF03}"
  /** ］ (U+FF3D) closes it. */
  const NoteClose: char := '\U{FF3D}'
  /** ｜ (U+FF5C) marks the start of the text a reading annotation applies to. */
  const RubyBar: char := '\U{FF5C}'

  /** `t[..n]` is a match of the pattern `open [^close]+ close`: the opener,
      one or more characters other than the closer, then the closer. */
  predicate MatchOf(t: string, open: string, close: char, n: nat) {
    |open| + 2 <= n <= |t| && t[..|open|] == open && t[n - 1] == close
    && forall k :: |open| <= k < n - 1 ==> t[k] != close
  }

  /** No match of `open [^close]+ close` starts anywhere in `s`. */
  ghost predicate MatchFree(s: string, open: string, close: char) {
    forall i, n :: 0 <= i < |s| ==> !MatchOf(s[i..], open, close, n)
  }

  /** The first index at or after `from` that holds `c`, or `|t|` if none does. */
  function Find(t: string, c: char, from: nat): (r: nat)
    requires from <= |t|
    ensures from <= r <= |t|
    ensures r < |t| ==> t[r] == c
    ensures forall k :: from <= k < r ==> t[k] != c
    decreases |t| - from
  {
    if from == |t| || t[from] == c then from else Find(t, c, from + 1)
  }

  /** The length of the match that starts at the beginning of `t`, or 0 if
      none does. Since `[^close]+` cannot cross a closer, a match ends at the
      first closer after the opener, so there is at most one. */
  function MatchLen(t: string, open: string, close: char): (n: nat)
    ensures n <= |t|
    ensures forall m :: MatchOf(t, open, close, m) <==> (n > 0 && m == n)
  {
    if |open| + 1 <= |t| && t[..|open|] == open && t[|open|] != close then
      var j := Find(t, close, |open| + 1);
      if j < |t| then j + 1 else 0
    else 0
  }

  /** `re.sub(open + "[^" + close + "]+" + close, "", s)`: scanning from the
      left, a match at the current position is deleted and the scan resumes
      after it; otherwise the current character is kept and the scan moves
      on by one. Only characters of `s` survive, never more than `s` has. */
  function RemoveSpans(s: string, open: string, close: char): (r: string)
    ensures |r| <= |s|
    ensures multiset(r) <= multiset(s)
    decreases |s|
  {
    if s == [] then []
    else
      var n := MatchLen(s, open, close);
      if n > 0 then
        assert s == s[..n] + s[n..];
        RemoveSpans(s[n..], open, close)
      else
        assert s == [s[0]] + s[1..];
        [s[0]] + RemoveSpans(s[1..], open, close)
  }

  /** Where no match starts, the first character is kept and the scan moves on. */
  lemma NoMatchKeepsFirst(s: string, open: string, close: char)
    requires s != [] && forall m :: !MatchOf(s, open, close, m)
    ensures RemoveSpans(s, open, close) == [s[0]] + RemoveSpans(s[1..], open, close)
  {
    var n := MatchLen(s, open, close);
    assert !MatchOf(s, open, close, n);
  }

  /** Text in which no match starts is kept verbatim, even where a match
      that starts later is removed. */
  lemma {:induction false} KeepsMatchFreePrefix(u: string, v: string, open: string, close: char)
    requires forall i, m :: 0 <= i < |u| ==> !MatchOf((u + v)[i..], open, close, m)
    ensures RemoveSpans(u + v, open, close) == u + RemoveSpans(v, open, close)
    decreases |u|
  {
    if u != [] {
      var s := u + v;
      assert forall m :: !MatchOf(s, open, close, m) by {
        assert s[0..] == s;
      }
      NoMatchKeepsFirst(s, open, close);
      AppendTail(u, v);
      forall i, m | 0 <= i < |u[1..]|
        ensures !MatchOf((u[1..] + v)[i..], open, close, m)
      {
        AppendTailSuffix(u, v, i);
      }
      KeepsMatchFreePrefix(u[1..], v, open, close);
      ConsAppend(u, RemoveSpans(v, open, close));
    } else {
      assert u + v == v;
    }
  }

  /** The leftmost match is removed whole, from its opener to the first closer
      after it (so it may swallow further openers and line breaks), the text
      before it is kept, and the scan resumes right after it. */
  lemma {:induction false} LeftmostMatchRemoved(u: string, v: string, open: string, close: char, n: nat)
    requires forall i, m :: 0 <= i < |u| ==> !MatchOf((u + v)[i..], open, close, m)
    requires MatchOf(v, open, close, n)
    ensures RemoveSpans(u + v, open, close) == u + RemoveSpans(v[n..], open, close)
  {
    KeepsMatchFreePrefix(u, v, open, close);
    assert MatchLen(v, open, close) == n;
  }

  /** The substitution changes nothing exactly when there is nothing to match. */
  lemma {:induction false} UnchangedIffMatchFree(s: string, open: string, close: char)
    ensures RemoveSpans(s, open, close) == s <==> MatchFree(s, open, close)
    decreases |s|
  {
    if s != [] {
      var n := MatchLen(s, open, close);
      assert s[0..] == s;
      if n > 0 {
        assert |RemoveSpans(s[n..], open, close)| <= |s| - n;
        assert !MatchFree(s, open, close) by {
          assert MatchOf(s[0..], open, close, n);
        }
      } else {
        UnchangedIffMatchFree(s[1..], open, close);
        var r := RemoveSpans(s, open, close);
        assert r == [s[0]] + RemoveSpans(s[1..], open, close);
        if MatchFree(s, open, close) {
          forall i, m | 0 <= i < |s[1..]|
            ensures !MatchOf(s[1..][i..], open, close, m)
          {
            assert s[1..][i..] == s[i + 1..];
          }
        }
        if r == s {
          assert RemoveSpans(s[1..], open, close) == s[1..];
          forall i, m | 0 <= i < |s|
            ensures !MatchOf(s[i..], open, close, m)
          {
            if i > 0 {
              assert s[1..][i - 1..] == s[i..];
            }
          }
        }
      }
    }
  }

  /** With a one-character opener, a character the scan keeps does not start
      a match in the output either: a kept opener is followed by a closer
      straight away or by no closer at all. */
  lemma KeptStartsNoMatch(s: string, open: string, close: char)
    requires |open| == 1 && open[0] != close
    requires s != [] && MatchLen(s, open, close) == 0
    ensures forall m :: !MatchOf([s[0]] + RemoveSpans(s[1..], open, close), open, close, m)
  {
    var rest := RemoveSpans(s[1..], open, close);
    var r := [s[0]] + rest;
    if s[0] != open[0] {
      assert r[..1] != open;
    } else if |s| > 1 && s[1] == close {
      KeptOpenerBeforeCloser(s, open, close);
    } else if |s| > 1 {
      KeptOpenerWithoutCloser(s, open, close);
    }
  }

  /** A kept opener directly followed by a closer: the closer is kept too, so
      the body between them stays empty. */
  lemma KeptOpenerBeforeCloser(s: string, open: string, close: char)
    requires |open| == 1 && open[0] != close
    requires |s| > 1 && s[1] == close
    ensures var r := [s[0]] + RemoveSpans(s[1..], open, close);
            |r| > 1 && r[1] == close
  {
    var t := s[1..];
    assert t[0] == close;
    assert t[..1] != open;
    assert MatchLen(t, open, close) == 0;
  }

  /** A kept opener with no closer after it: the rest of the output has no
      closer either. */
  lemma KeptOpenerWithoutCloser(s: string, open: string, close: char)
    requires |open| == 1 && open[0] != close
    requires |s| > 1 && s[..1] == open && s[1] != close && MatchLen(s, open, close) == 0
    ensures close !in RemoveSpans(s[1..], open, close)
  {
    assert Find(s, close, 2) == |s|;
    var t := s[1..];
    assert close !in t by {
      forall k | 0 <= k < |t| ensures t[k] != close {
        assert t[k] == s[k + 1];
      }
    }
    assert multiset(t)[close] == 0;
  }

  /** With a one-character opener (the reading-annotation pattern), one pass
      leaves nothing that the pattern would match again. */
  lemma {:induction false} SingleOpenerLeavesNoMatch(s: string, open: string, close: char)
    requires |open| == 1 && open[0] != close
    ensures MatchFree(RemoveSpans(s, open, close), open, close)
    decreases |s|
  {
    if s != [] {
      var n := MatchLen(s, open, close);
      if n > 0 {
        SingleOpenerLeavesNoMatch(s[n..], open, close);
      } else {
        var rest := RemoveSpans(s[1..], open, close);
        var r := [s[0]] + rest;
        SingleOpenerLeavesNoMatch(s[1..], open, close);
        KeptStartsNoMatch(s, open, close);
        forall i, m | 0 <= i < |r|
          ensures !MatchOf(r[i..], open, close, m)
        {
          if i > 0 {
            assert r[i..] == rest[i - 1..];
          } else {
            assert r[0..] == r;
          }
        }
      }
    }
  }

  /** Removing the reading annotations leaves no reading annotation. */
  lemma RubyRemovalComplete(s: string)
    ensures MatchFree(RemoveSpans(s, RubyOpen, RubyClose), RubyOpen, RubyClose)
  {
    SingleOpenerLeavesNoMatch(s, RubyOpen, RubyClose);
  }

  /** With the two-character note opener one pass is not enough: in
      `［［＃x］＃y］` the inner note `［＃x］` is the leftmost match, and
      deleting it brings the outer `［` next to `＃y］`, so the output is the
      note `［＃y］`. */
  lemma NoteRemovalCanLeaveNote(s: string)
    requires |s| == 8 && s[0] == s[1] == NoteOpen[0] && s[2] == NoteOpen[1]
    requires s[3] != NoteClose && s[4] == NoteClose
    requires s[5] == NoteOpen[1] && s[6] != NoteClose && s[7] == NoteClose
    ensures RemoveSpans(s, NoteOpen, NoteClose) == s[..1] + s[5..]
    ensures !MatchFree(RemoveSpans(s, NoteOpen, NoteClose), NoteOpen, NoteClose)
  {
    InnerNoteRemoved(s);
    NoteTailKept(s[5..]);
    var t := s[..1] + s[5..];
    assert |t| == 4 && t[0] == NoteOpen[0] && t[1] == NoteOpen[1] && t[2] == s[6] && t[3] == NoteClose;
    NoteIsMatch(t);
  }

  /** `［` followed by the note `［＃x］`: the note goes, the `［` stays. */
  lemma InnerNoteRemoved(s: string)
    requires |s| >= 5 && s[0] == s[1] == NoteOpen[0] && s[2] == NoteOpen[1]
    requires s[3] != NoteClose && s[4] == NoteClose
    ensures RemoveSpans(s, NoteOpen, NoteClose) == s[..1] + RemoveSpans(s[5..], NoteOpen, NoteClose)
  {
    var u, v := s[..1], s[1..];
    assert u + v == s;
    assert v[..2] == NoteOpen;
    assert MatchOf(v, NoteOpen, NoteClose, 4);
    forall i, m | 0 <= i < |u| ensures !MatchOf((u + v)[i..], NoteOpen, NoteClose, m) {
      assert (u + v)[i..][1] != NoteOpen[1];
    }
    LeftmostMatchRemoved(u, v, NoteOpen, NoteClose, 4);
    assert v[4..] == s[5..];
  }

  /** `＃y］` holds no opener `［＃` and is kept. */
  lemma NoteTailKept(w: string)
    requires |w| == 3 && w[0] == NoteOpen[1] && w[2] == NoteClose
    ensures RemoveSpans(w, NoteOpen, NoteClose) == w
  {
    forall i, m | 0 <= i < |w| ensures !MatchOf(w[i..], NoteOpen, NoteClose, m) {
      assert w[i..][0] != NoteOpen[0] || |w[i..]| < 4;
    }
    UnchangedIffMatchFree(w, NoteOpen, NoteClose);
  }

  /** `［＃y］` with `y` not a closer is a note. */
  lemma NoteIsMatch(t: string)
    requires |t| == 4 && t[0] == NoteOpen[0] && t[1] == NoteOpen[1] && t[2] != NoteClose && t[3] == NoteClose
    ensures !MatchFree(t, NoteOpen, NoteClose)
  {
    assert t[..2] == NoteOpen;
    assert MatchOf(t[0..], NoteOpen, NoteClose, 4);
  }

  /** A text that begins with an empty annotation `《》` keeps it, with
      whatever follows it scanned as usual: no match can start inside it. */
  lemma EmptyRubyKept(v: string)
    ensures RemoveSpans(RubyOpen + [RubyClose] + v, RubyOpen, RubyClose)
            == RubyOpen + [RubyClose] + RemoveSpans(v, RubyOpen, RubyClose)
  {
    var u := RubyOpen + [RubyClose];
    var s := u + v;
    forall i, m | 0 <= i < |u| ensures !MatchOf(s[i..], RubyOpen, RubyClose, m) {
      if i == 0 {
        assert s[i..][1] == RubyClose;
      } else {
        assert s[i..][0] == RubyClose;
      }
    }
    KeepsMatchFreePrefix(u, v, RubyOpen, RubyClose);
  }

  /** A text that begins with an empty note `［＃］` keeps it, with whatever
      follows it scanned as usual: no match can start inside it. */
  lemma EmptyNoteKept(v: string)
    ensures RemoveSpans(NoteOpen + [NoteClose] + v, NoteOpen, NoteClose)
            == NoteOpen + [NoteClose] + RemoveSpans(v, NoteOpen, NoteClose)
  {
    var u := NoteOpen + [NoteClose];
    var s := u + v;
    forall i, m | 0 <= i < |u| ensures !MatchOf(s[i..], NoteOpen, NoteClose, m) {
      if i == 0 {
        assert s[i..][2] == NoteClose;
      } else {
        assert s[i..][0] != NoteOpen[0];
      }
    }
    KeepsMatchFreePrefix(u, v, NoteOpen, NoteClose);
  }

  /** In context: an empty `《》` that the scan reaches, that is, one no
      earlier match covers, is kept, and the text after it is scanned as
      usual. (In `《a《》` the leftmost match covers it and it goes.) */
  lemma EmptyRubyKeptAfter(u: string, v: string)
    requires forall i, m :: 0 <= i < |u|
               ==> !MatchOf((u + (RubyOpen + [RubyClose] + v))[i..], RubyOpen, RubyClose, m)
    ensures RemoveSpans(u + (RubyOpen + [RubyClose] + v), RubyOpen, RubyClose)
            == u + (RubyOpen + [RubyClose] + RemoveSpans(v, RubyOpen, RubyClose))
  {
    KeepsMatchFreePrefix(u, RubyOpen + [RubyClose] + v, RubyOpen, RubyClose);
    EmptyRubyKept(v);
  }

  /** In context: an empty `［＃］` that the scan reaches is kept, and the
      text after it is scanned as usual. */
  lemma EmptyNoteKeptAfter(u: string, v: string)
    requires forall i, m :: 0 <= i < |u|
               ==> !MatchOf((u + (NoteOpen + [NoteClose] + v))[i..], NoteOpen, NoteClose, m)
    ensures RemoveSpans(u + (NoteOpen + [NoteClose] + v), NoteOpen, NoteClose)
            == u + (NoteOpen + [NoteClose] + RemoveSpans(v, NoteOpen, NoteClose))
  {
    KeepsMatchFreePrefix(u, NoteOpen + [NoteClose] + v, NoteOpen, NoteClose);
    EmptyNoteKept(v);
  }

  /** `re.sub(c, "", s)` for a single literal character `c`: every `c` is
      gone, every other character keeps its count, and text without `c` is
      returned unchanged. */
  function RemoveChar(s: string, c: char): (r: string)
    ensures c !in r
    ensures multiset(r) == multiset(s)[c := 0]
    ensures c !in s ==> r == s
    decreases |s|
  {
    if s == [] then []
    else
      assert s == [s[0]] + s[1..];
      (if s[0] == c then [] else [s[0]]) + RemoveChar(s[1..], c)
  }

  /** Deleting a character distributes over concatenation, so the surviving
      characters keep their order. */
  lemma {:induction false} RemoveCharAppend(a: string, b: string, c: char)
    ensures RemoveChar(a + b, c) == RemoveChar(a, c) + RemoveChar(b, c)
    decreases |a|
  {
    if a == [] {
      assert a + b == b;
    } else {
      AppendTail(a, b);
      RemoveCharAppend(a[1..], b, c);
      var head := if a[0] == c then [] else [a[0]];
      assert RemoveChar(a + b, c) == head + RemoveChar(a[1..] + b, c);
      AppendAssoc(head, RemoveChar(a[1..], c), RemoveChar(b, c));
    }
  }
}
