/**
  `clean_aozora_text`: turns the decoded text of an Aozora Bunko file into
  plain prose. It removes the markup, splits the text into lines, skips the
  header block that ends at the second hyphen rule, cuts off the footer
  (as written, see `FooterEnd`), drops blank lines, right-strips the others
  and joins them with line breaks.
 */
module Cleaner {
  import opened Strings
  import opened Markup

  /** The rule of 55 hyphens that a line must contain to delimit the header. */
  const Rule: string := "-------------------------------------------------------"
  /** 底本： "source edition:", which begins the colophon. */
  const Colophon: string := "\U{5E95}\U{672C}\U{FF1A}"
  /** 底本の親本： "parent edition of the source edition:". */
  const ParentColophon: string := "\U{5E95}\U{672C}\U{306E}\U{89AA}\U{672C}\U{FF1A}"

  /** The footer test: the line begins with one of the colophon labels. */
  predicate IsColophonLine(line: string) {
    StartsWith(line, Colophon) || StartsWith(line, ParentColophon)
  }

  /** The text after the three substitutions: reading annotations, then
      editorial notes, then every `｜`. */
  function StripMarkup(text: string): (r: string)
    ensures RubyBar !in r
  {
    RemoveChar(RemoveSpans(RemoveSpans(text, RubyOpen, RubyClose), NoteOpen, NoteClose), RubyBar)
  }

  /** The lines of the text after markup removal, `text.split("\n")`. */
  function Lines(text: string): (ls: seq<string>)
    ensures |ls| > 0
    ensures forall k :: 0 <= k < |ls| ==> '\n' !in ls[k] && RubyBar !in ls[k]
    ensures Join(ls, "\n") == StripMarkup(text)
  {
    var t := StripMarkup(text);
    SplitAvoids(t, '\n', RubyBar);
    Split(t, '\n')
  }

  /** How many lines of `ls` contain the rule. */
  function RuleCount(ls: seq<string>, rule: string): nat
    decreases |ls|
  {
    if ls == [] then 0
    else RuleCount(ls[..|ls| - 1], rule) + (if Contains(ls[|ls| - 1], rule) then 1 else 0)
  }

  /** Counting one line further. */
  lemma RuleCountStep(ls: seq<string>, k: nat, rule: string)
    requires k < |ls|
    ensures RuleCount(ls[..k + 1], rule) == RuleCount(ls[..k], rule) + (if Contains(ls[k], rule) then 1 else 0)
  {
    assert ls[..k + 1][..k] == ls[..k];
  }

  /** A longer prefix holds at least as many rule lines. */
  lemma {:induction false} RuleCountMonotone(ls: seq<string>, i: nat, j: nat, rule: string)
    requires i <= j <= |ls|
    ensures RuleCount(ls[..i], rule) <= RuleCount(ls[..j], rule)
    decreases j - i
  {
    if i < j {
      RuleCountStep(ls, i, rule);
      RuleCountMonotone(ls, i + 1, j, rule);
    }
  }

  /** Where the body begins: one past the second line that contains the rule,
      or 0 when fewer than two lines do. */
  function HeaderEnd(ls: seq<string>, rule: string): (r: nat)
    ensures r <= |ls|
    ensures r == 0 <==> RuleCount(ls, rule) < 2
    ensures r > 0 ==> Contains(ls[r - 1], rule) && RuleCount(ls[..r - 1], rule) == 1
    decreases |ls|
  {
    if ls == [] then 0
    else
      var init := ls[..|ls| - 1];
      if RuleCount(init, rule) >= 2 then
        var r := HeaderEnd(init, rule);
        assert init[..r - 1] == ls[..r - 1];
        r
      else if RuleCount(ls, rule) >= 2 then
        assert ls[..|ls|] == ls;
        |ls|
      else 0
  }

  /** Only one line is a rule line with exactly one rule line before it. */
  lemma {:induction false} SecondRuleUnique(ls: seq<string>, rule: string, a: nat, b: nat)
    requires a < |ls| && Contains(ls[a], rule) && RuleCount(ls[..a], rule) == 1
    requires b < |ls| && Contains(ls[b], rule) && RuleCount(ls[..b], rule) == 1
    ensures a == b
  {
    if a < b {
      RuleCountStep(ls, a, rule);
      RuleCountMonotone(ls, a + 1, b, rule);
    } else if b < a {
      RuleCountStep(ls, b, rule);
      RuleCountMonotone(ls, b + 1, a, rule);
    }
  }

  /** The body begins after the second rule line, wherever that is. */
  lemma {:induction false} SecondRuleEndsHeader(ls: seq<string>, k: nat, rule: string)
    requires k < |ls| && Contains(ls[k], rule) && RuleCount(ls[..k], rule) == 1
    ensures HeaderEnd(ls, rule) == k + 1
  {
    RuleCountStep(ls, k, rule);
    RuleCountMonotone(ls, k + 1, |ls|, rule);
    assert ls[..|ls|] == ls;
    var r := HeaderEnd(ls, rule);
    SecondRuleUnique(ls, rule, r - 1, k);
  }

  /** The value the loop variable `line` is left holding by the header scan:
      the second rule line when the scan stopped there, else the last line. */
  function StaleLine(ls: seq<string>, rule: string): string
    requires |ls| > 0
  {
    var h := HeaderEnd(ls, rule);
    if h > 0 then ls[h - 1] else ls[|ls| - 1]
  }

  /** Where the footer begins, as the footer scan is written: it tests the
      stale `line` of the header scan instead of the line at its own index, so
      it stops at once at `start` when that line is a colophon line (and the
      range is not empty), and otherwise never. */
  function FooterEnd(ls: seq<string>, start: nat, line: string): (r: nat)
    requires start <= |ls|
    ensures start <= r <= |ls|
  {
    if start < |ls| && IsColophonLine(line) then start else |ls|
  }

  /** `[line.rstrip() for line in ls if line.strip()]` */
  function KeepLines(ls: seq<string>): (r: seq<string>)
    ensures |r| <= |ls|
    ensures forall k :: 0 <= k < |r| ==> r[k] != [] && !IsSpace(r[k][|r[k]| - 1])
    decreases |ls|
  {
    if ls == [] then []
    else (if IsBlank(ls[0]) then [] else [RStrip(ls[0])]) + KeepLines(ls[1..])
  }

  /** A line is kept exactly when it is the right-stripped form of a
      non-blank input line. */
  lemma {:induction false} KeptLineIff(ls: seq<string>, x: string)
    ensures x in KeepLines(ls) <==> exists k :: 0 <= k < |ls| && !IsBlank(ls[k]) && x == RStrip(ls[k])
    decreases |ls|
  {
    if ls != [] {
      KeptLineIff(ls[1..], x);
      if x in KeepLines(ls[1..]) {
        var k :| 0 <= k < |ls[1..]| && !IsBlank(ls[1..][k]) && x == RStrip(ls[1..][k]);
        assert ls[k + 1] == ls[1..][k];
      }
      if exists k :: 0 <= k < |ls| && !IsBlank(ls[k]) && x == RStrip(ls[k]) {
        var k :| 0 <= k < |ls| && !IsBlank(ls[k]) && x == RStrip(ls[k]);
        if k > 0 {
          assert ls[1..][k - 1] == ls[k];
        }
      }
    }
  }

  /** Filtering keeps the order: it distributes over concatenation. */
  lemma {:induction false} KeepLinesAppend(a: seq<string>, b: seq<string>)
    ensures KeepLines(a + b) == KeepLines(a) + KeepLines(b)
    decreases |a|
  {
    if a == [] {
      assert a + b == b;
    } else {
      AppendTail(a, b);
      KeepLinesAppend(a[1..], b);
      var head := if IsBlank(a[0]) then [] else [RStrip(a[0])];
      AppendAssoc(head, KeepLines(a[1..]), KeepLines(b));
    }
  }

  /** A character that no input line holds is in no kept line. */
  lemma {:induction false} KeepLinesAvoid(ls: seq<string>, c: char)
    requires forall k :: 0 <= k < |ls| ==> c !in ls[k]
    ensures forall k :: 0 <= k < |KeepLines(ls)| ==> c !in KeepLines(ls)[k]
    decreases |ls|
  {
    if ls != [] {
      KeepLinesAvoid(ls[1..], c);
      var head := if IsBlank(ls[0]) then [] else [RStrip(ls[0])];
      assert forall k :: 0 <= k < |head| ==> c !in head[k] by {
        if head != [] {
          assert forall x :: x in RStrip(ls[0]) ==> x in ls[0];
        }
      }
    }
  }

  /** The lines between the header and the footer cut. As written, the cut
      takes nothing or everything after the header: nothing exactly when the
      header runs to the end or the stale line is a colophon line. */
  function Body(ls: seq<string>, rule: string): (body: seq<string>)
    requires |ls| > 0
    ensures body <= ls[HeaderEnd(ls, rule)..]
    ensures body == [] || |body| == |ls| - HeaderEnd(ls, rule)
    ensures body == [] <==> HeaderEnd(ls, rule) == |ls| || IsColophonLine(StaleLine(ls, rule))
  {
    var start := HeaderEnd(ls, rule);
    ls[start..FooterEnd(ls, start, StaleLine(ls, rule))]
  }

  /** The cleaned text of a list of lines, for a given rule. */
  function CleanLines(ls: seq<string>, rule: string): string
    requires |ls| > 0
  {
    Join(KeepLines(Body(ls, rule)), "\n")
  }

  /** The whole of `clean_aozora_text`, as a function of the raw text. */
  function Clean(text: string): string {
    CleanLines(Lines(text), Rule)
  }

  /** The header scan stops at the second rule line: that fixes the body
      start and the stale line. */
  lemma HeaderScanStops(ls: seq<string>, i: nat, rule: string)
    requires i < |ls| && Contains(ls[i], rule) && RuleCount(ls[..i], rule) == 1
    ensures HeaderEnd(ls, rule) == i + 1 && RuleCount(ls, rule) >= 2
    ensures StaleLine(ls, rule) == ls[i]
  {
    SecondRuleEndsHeader(ls, i, rule);
  }

  /** The header scan runs to the end when fewer than two lines hold the rule. */
  lemma HeaderScanCompletes(ls: seq<string>, rule: string)
    requires |ls| > 0 && RuleCount(ls[..|ls|], rule) < 2
    ensures HeaderEnd(ls, rule) == 0 && RuleCount(ls, rule) < 2
    ensures StaleLine(ls, rule) == ls[|ls| - 1]
  {
    assert ls[..|ls|] == ls;
  }

  /** The header scan (`get_dazai_writings.py`, lines 31-37): count rule lines and stop
      at the second one; `line` is left holding the last line looked at. */
  method ScanHeader(lines: seq<string>) returns (startIdx: nat, separatorCount: nat, line: string)
    requires |lines| > 0
    ensures startIdx == HeaderEnd(lines, Rule)
    ensures separatorCount == if RuleCount(lines, Rule) < 2 then RuleCount(lines, Rule) else 2
    ensures line == StaleLine(lines, Rule)
  {
    startIdx, separatorCount, line := 0, 0, "";
    var i := 0;
    while i < |lines|
      invariant 0 <= i <= |lines|
      invariant separatorCount == RuleCount(lines[..i], Rule) < 2
      invariant startIdx == 0
      invariant i > 0 ==> line == lines[i - 1]
    {
      line := lines[i];
      RuleCountStep(lines, i, Rule);
      if Contains(line, Rule) {
        separatorCount := separatorCount + 1;
        if separatorCount == 2 {
          startIdx := i + 1;
          HeaderScanStops(lines, i, Rule);
          break;
        }
      }
      i := i + 1;
    }
    if startIdx == 0 {
      HeaderScanCompletes(lines, Rule);
      assert lines[..|lines|] == lines;
    }
  }

  /** The footer scan (`get_dazai_writings.py`, lines 40-44), which tests the stale `line`. */
  method ScanFooter(lines: seq<string>, startIdx: nat, line: string) returns (endIdx: nat)
    requires startIdx <= |lines|
    ensures endIdx == FooterEnd(lines, startIdx, line)
  {
    endIdx := |lines|;
    var i := startIdx;
    while i < |lines|
      invariant startIdx <= i <= |lines|
      invariant endIdx == |lines|
      invariant i > startIdx ==> !IsColophonLine(line)
    {
      if IsColophonLine(line) {
        endIdx := i;
        break;
      }
      i := i + 1;
    }
  }

  /** `clean_aozora_text`. The reset of the start index when fewer than two
      rules were seen never changes it: the scan only moves it at the second. */
  method CleanAozoraText(text: string) returns (cleaned: string)
    ensures cleaned == Clean(text)
  {
    var t := RemoveSpans(text, RubyOpen, RubyClose);
    t := RemoveSpans(t, NoteOpen, NoteClose);
    t := RemoveChar(t, RubyBar);
    var lines := Split(t, '\n');
    var startIdx, separatorCount, line := ScanHeader(lines);
    var endIdx := ScanFooter(lines, startIdx, line);
    if separatorCount < 2 {
      assert startIdx == 0;
      startIdx := 0;
    }
    var cleanedLines := lines[startIdx..endIdx];
    cleaned := Join(KeepLines(cleanedLines), "\n");
  }

  /** Every body line is a line of the text, so a character no line holds
      is in no body line. */
  lemma BodyAvoids(ls: seq<string>, rule: string, c: char)
    requires |ls| > 0
    requires forall k :: 0 <= k < |ls| ==> c !in ls[k]
    ensures forall k :: 0 <= k < |Body(ls, rule)| ==> Body(ls, rule)[k] in ls
    ensures forall k :: 0 <= k < |Body(ls, rule)| ==> c !in Body(ls, rule)[k]
  {
    var body, h := Body(ls, rule), HeaderEnd(ls, rule);
    forall k | 0 <= k < |body| ensures body[k] in ls && c !in body[k] {
      assert body[k] == ls[h..][k] == ls[h + k];
    }
  }

  /** A character other than the line break that no line holds is not in
      the cleaned text. */
  lemma CleanLinesAvoid(ls: seq<string>, rule: string, c: char)
    requires |ls| > 0 && c != '\n'
    requires forall k :: 0 <= k < |ls| ==> c !in ls[k]
    ensures c !in CleanLines(ls, rule)
  {
    BodyAvoids(ls, rule, c);
    KeepLinesAvoid(Body(ls, rule), c);
    JoinAvoids(KeepLines(Body(ls, rule)), "\n", c);
  }

  /** No `｜` is left in the cleaned text. */
  lemma CleanOmitsRubyBar(text: string)
    ensures RubyBar !in Clean(text)
  {
    CleanLinesAvoid(Lines(text), Rule, RubyBar);
  }

  /** Joining the kept lines of line-break-free lines: the result never
      begins or ends with a line break, never holds two in a row, and splits
      back into exactly the kept lines. */
  lemma KeptJoinShape(body: seq<string>)
    requires forall k :: 0 <= k < |body| ==> '\n' !in body[k]
    ensures var r := Join(KeepLines(body), "\n"); r == [] || (r[0] != '\n' && r[|r| - 1] != '\n')
    ensures !Contains(Join(KeepLines(body), "\n"), "\n\n")
    ensures var r := Join(KeepLines(body), "\n"); r != [] ==> Split(r, '\n') == KeepLines(body)
    ensures var r := Join(KeepLines(body), "\n");
            forall l :: l in Split(r, '\n') && r != [] ==> l != [] && !IsSpace(l[|l| - 1])
  {
    var kept := KeepLines(body);
    KeepLinesAvoid(body, '\n');
    JoinShape(kept, '\n');
    var r := Join(kept, "\n");
    forall i | 0 <= i <= |r| - 2 ensures !StartsWith(r[i..], "\n\n") {
      assert r[i..][..2] == [r[i], r[i + 1]];
    }
    if r != [] {
      assert kept != [];
      SplitJoin(kept, '\n');
      forall l | l in Split(r, '\n') ensures l != [] && !IsSpace(l[|l| - 1]) {
        var k :| 0 <= k < |kept| && kept[k] == l;
      }
    }
  }

  /** The same for the cleaned text of any list of line-break-free lines. */
  lemma CleanLinesShape(ls: seq<string>, rule: string)
    requires |ls| > 0
    requires forall k :: 0 <= k < |ls| ==> '\n' !in ls[k]
    ensures var r := CleanLines(ls, rule); r == [] || (r[0] != '\n' && r[|r| - 1] != '\n')
    ensures !Contains(CleanLines(ls, rule), "\n\n")
    ensures var r := CleanLines(ls, rule); r != [] ==> Split(r, '\n') == KeepLines(Body(ls, rule))
    ensures var r := CleanLines(ls, rule);
            forall l :: l in Split(r, '\n') && r != [] ==> l != [] && !IsSpace(l[|l| - 1])
  {
    BodyAvoids(ls, rule, '\n');
    KeptJoinShape(Body(ls, rule));
  }

  /** The cleaned text never begins or ends with a line break and never holds
      an empty line; when it is not empty its lines are exactly the kept body
      lines, so each is non-empty and has no trailing whitespace (`\r`
      included). */
  lemma CleanShape(text: string)
    ensures var r := Clean(text); r == [] || (r[0] != '\n' && r[|r| - 1] != '\n')
    ensures !Contains(Clean(text), "\n\n")
    ensures var r := Clean(text); r != [] ==> Split(r, '\n') == KeepLines(Body(Lines(text), Rule))
    ensures var r := Clean(text);
            forall l :: l in Split(r, '\n') && r != [] ==> l != [] && !IsSpace(l[|l| - 1])
  {
    CleanLinesShape(Lines(text), Rule);
  }

  /** With fewer than two rule lines nothing is taken off the top; but the
      stale line is then the last line, so when the last line is a colophon
      line the result is empty, and otherwise it runs to the end. */
  lemma CleanWithoutHeader(ls: seq<string>, rule: string)
    requires |ls| > 0 && RuleCount(ls, rule) < 2
    ensures CleanLines(ls, rule) == if IsColophonLine(ls[|ls| - 1]) then [] else Join(KeepLines(ls), "\n")
  {
    var body := Body(ls, rule);
    if !IsColophonLine(ls[|ls| - 1]) {
      assert ls[0..] == ls;
      assert body == ls;
    }
  }

  /** A colophon line is not blank. */
  lemma ColophonNotBlank(line: string)
    requires IsColophonLine(line)
    ensures !IsBlank(line)
  {
    assert line[0] == '\U{5E95}' by {
      assert line[..|Colophon|] == Colophon || line[..|ParentColophon|] == ParentColophon;
    }
  }

  /** With a header whose second rule line is not a colophon line, the body
      is everything after the header. */
  lemma BodyAfterHeader(ls: seq<string>, rule: string)
    requires |ls| > 0 && RuleCount(ls, rule) >= 2
    requires HeaderEnd(ls, rule) < |ls|
    requires !IsColophonLine(ls[HeaderEnd(ls, rule) - 1])
    ensures Body(ls, rule) == ls[HeaderEnd(ls, rule)..]
  {
  }

  /** With a header, a colophon line after it is kept unless the second rule
      line itself begins with a colophon label: the footer is not cut. */
  lemma ColophonKept(ls: seq<string>, rule: string, k: nat)
    requires |ls| > 0 && RuleCount(ls, rule) >= 2
    requires HeaderEnd(ls, rule) <= k < |ls|
    requires !IsColophonLine(ls[HeaderEnd(ls, rule) - 1])
    requires IsColophonLine(ls[k])
    ensures RStrip(ls[k]) in KeepLines(Body(ls, rule))
  {
    var h := HeaderEnd(ls, rule);
    var body := Body(ls, rule);
    BodyAfterHeader(ls, rule);
    assert body[k - h] == ls[k];
    ColophonNotBlank(ls[k]);
    KeptLineIff(body, RStrip(ls[k]));
  }

  /** With a header whose second rule line begins with a colophon label, the
      whole body is cut and the result is empty. */
  lemma ColophonRuleEmpties(ls: seq<string>, rule: string)
    requires |ls| > 0 && RuleCount(ls, rule) >= 2
    requires IsColophonLine(ls[HeaderEnd(ls, rule) - 1])
    ensures CleanLines(ls, rule) == []
  {
  }

  /** A line that ends in a non-space character is kept as it is. */
  lemma KeptAsIs(x: string)
    requires x != [] && !IsSpace(x[|x| - 1])
    ensures KeepLines([x]) == [x]
  {
    assert !IsBlank(x) by { assert !IsSpace(x[|x| - 1]); }
    assert [x][1..] == [];
  }

  /** The first pass over `[t, r, n, r, b, c, ""]`, with `r` the rule lines:
      the stale line is the second `r`, so nothing after the header is cut. */
  lemma FirstPassKeepsColophon(t: string, r: string, n: string, b: string, c: string, rule: string)
    requires Contains(r, rule) && !IsColophonLine(r)
    requires !Contains(t, rule) && !Contains(n, rule)
    requires b != [] && !IsSpace(b[|b| - 1]) && c != [] && !IsSpace(c[|c| - 1])
    ensures CleanLines([t, r, n, r, b, c, ""], rule) == b + "\n" + c
  {
    var ls := [t, r, n, r, b, c, ""];
    assert ls[..0] == [];
    RuleCountStep(ls, 0, rule);
    RuleCountStep(ls, 1, rule);
    RuleCountStep(ls, 2, rule);
    SecondRuleEndsHeader(ls, 3, rule);
    var body := Body(ls, rule);
    assert body == [b, c, ""];
    KeptAsIs(b);
    KeptAsIs(c);
    assert KeepLines(body) == [b] + KeepLines([c, ""]) by { assert body[1..] == [c, ""]; }
    assert KeepLines([c, ""]) == [c] + KeepLines([""]) by { assert [c, ""][1..] == [""]; }
    assert KeepLines([""]) == [] by { assert [""][1..] == []; }
    assert KeepLines(body) == [b, c];
    assert Join([b, c], "\n") == b + "\n" + c by { assert [b, c][1..] == [c]; }
  }

  /** The second pass over `[b, c]`: no header, so the stale line is the last
      line `c`, and a colophon line there empties the result. */
  lemma SecondPassEmpties(b: string, c: string, rule: string)
    requires !Contains(b, rule) && !Contains(c, rule)
    requires IsColophonLine(c)
    ensures CleanLines([b, c], rule) == []
  {
    var ms := [b, c];
    assert ms[..0] == [];
    RuleCountStep(ms, 0, rule);
    RuleCountStep(ms, 1, rule);
    assert ms[..2] == ms;
    CleanWithoutHeader(ms, rule);
  }

  /** As written, cleaning is not idempotent, even for a file with a header
      and a final colophon. In `[t, r, n, r, b, c, ""]` with `r` the rule lines
      the stale line is the second `r`, so nothing is cut and the result is
      `b + "\n" + c`. Cleaning the lines of that again finds no header, the
      stale line is then the last line `c`, a colophon line, and everything is
      dropped. */
  lemma CleanNotIdempotent(t: string, r: string, n: string, b: string, c: string, rule: string)
    requires Contains(r, rule) && !IsColophonLine(r)
    requires !Contains(t, rule) && !Contains(n, rule) && !Contains(b, rule) && !Contains(c, rule)
    requires IsColophonLine(c)
    requires '\n' !in b && '\n' !in c
    requires b != [] && !IsSpace(b[|b| - 1]) && !IsSpace(c[|c| - 1])
    ensures var once := CleanLines([t, r, n, r, b, c, ""], rule);
            once == b + "\n" + c && CleanLines(Split(once, '\n'), rule) == []
  {
    ColophonNotBlank(c);
    FirstPassKeepsColophon(t, r, n, b, c, rule);
    SplitJoin([b, c], '\n');
    SecondPassEmpties(b, c, rule);
  }
}
