/**
  The two callers of the cleaner: `download_and_process_aozora`, which picks
  the first `.txt` entry of a downloaded archive and cleans it, and `main`,
  which gathers the non-empty results into one corpus joined by blank lines
  and reports its total length. Fetching, unpacking and decoding are not
  modelled: an archive is given as its entries with their decoded text, and
  every failure along the way is the single outcome `Failed`.
 */
module Corpus {
  import opened Strings
  import opened Cleaner

  /** An archive entry: its name and its text, already decoded. */
  datatype Entry = Entry(name: string, text: string)

  /** What fetching one URL gives: an error in the HTTP request or in ZIP parsing
      or entry reading (decoding ignores bad bytes and cannot fail),
      or the entries of the archive in archive order. */
  datatype Fetch = Failed | Archive(entries: seq<Entry>)

  /** What `main` ends with: nothing extracted, or the corpus written and
      the total number of characters of the kept texts. */
  datatype Report = NoData | Saved(contents: string, totalChars: nat)

  /** The separator `main` puts between two works. */
  const WorkSeparator: string := "\n\n"

  /** `[name for name in z.namelist() if name.endswith(".txt")]`, on entries. */
  function TextEntries(es: seq<Entry>): (r: seq<Entry>)
    ensures |r| <= |es|
    ensures forall k :: 0 <= k < |r| ==> EndsWith(r[k].name, ".txt")
    decreases |es|
  {
    if es == [] then []
    else (if EndsWith(es[0].name, ".txt") then [es[0]] else []) + TextEntries(es[1..])
  }

  /** An entry is listed exactly when it is in the archive and its name ends
      in `.txt`. */
  lemma {:induction false} TextEntriesIff(es: seq<Entry>, e: Entry)
    ensures e in TextEntries(es) <==> e in es && EndsWith(e.name, ".txt")
    decreases |es|
  {
    if es != [] {
      TextEntriesIff(es[1..], e);
      assert es == [es[0]] + es[1..];
    }
  }

  /** The entry chosen is the first `.txt` entry in archive order. */
  lemma {:induction false} FirstTextEntry(es: seq<Entry>, k: nat)
    requires k < |es| && EndsWith(es[k].name, ".txt")
    requires forall j :: 0 <= j < k ==> !EndsWith(es[j].name, ".txt")
    ensures TextEntries(es) != [] && TextEntries(es)[0] == es[k]
    decreases k
  {
    if k > 0 {
      FirstTextEntry(es[1..], k - 1);
    }
  }

  /** `download_and_process_aozora`: the cleaned text of the first `.txt`
      entry, or `""` on failure or when the archive has no `.txt` entry. */
  function DownloadAndProcess(f: Fetch): (r: string)
    ensures f.Failed? ==> r == []
    ensures f.Archive? && TextEntries(f.entries) == [] ==> r == []
  {
    match f
    case Failed => []
    case Archive(entries) =>
      var texts := TextEntries(entries);
      if texts == [] then [] else Clean(texts[0].text)
  }

  /** A non-empty result is the cleaned text of the first `.txt` entry. */
  lemma ProcessedFirstText(entries: seq<Entry>, k: nat)
    requires k < |entries| && EndsWith(entries[k].name, ".txt")
    requires forall j :: 0 <= j < k ==> !EndsWith(entries[j].name, ".txt")
    ensures DownloadAndProcess(Archive(entries)) == Clean(entries[k].text)
  {
    FirstTextEntry(entries, k);
  }

  /** The result of every work, in URL order. */
  function Results(works: seq<Fetch>): seq<string> {
    seq(|works|, k requires 0 <= k < |works| => DownloadAndProcess(works[k]))
  }

  /** The texts `main` keeps: the non-empty results, in order. */
  function KeptTexts(rs: seq<string>): (r: seq<string>)
    ensures |r| <= |rs|
    ensures forall k :: 0 <= k < |r| ==> r[k] != []
    decreases |rs|
  {
    if rs == [] then []
    else
      var t := rs[|rs| - 1];
      KeptTexts(rs[..|rs| - 1]) + (if t != [] then [t] else [])
  }

  /** Keeping is done result by result: it distributes over concatenation. */
  lemma {:induction false} KeptTextsAppend(a: seq<string>, b: seq<string>)
    ensures KeptTexts(a + b) == KeptTexts(a) + KeptTexts(b)
    decreases |b|
  {
    if b == [] {
      assert a + b == a;
    } else {
      var init := b[..|b| - 1];
      assert (a + b)[..|a + b| - 1] == a + init;
      assert (a + b)[|a + b| - 1] == b[|b| - 1];
      KeptTextsAppend(a, init);
    }
  }

  /** A text is kept exactly when it is a non-empty result. */
  lemma {:induction false} KeptTextsIff(rs: seq<string>, t: string)
    ensures t in KeptTexts(rs) <==> t != [] && t in rs
    decreases |rs|
  {
    if rs != [] {
      var init := rs[..|rs| - 1];
      KeptTextsIff(init, t);
      assert rs == init + [rs[|rs| - 1]];
    }
  }

  /** Nothing is kept exactly when every result is `""`. */
  lemma {:induction false} KeptTextsEmptyIff(rs: seq<string>)
    ensures KeptTexts(rs) == [] <==> forall k :: 0 <= k < |rs| ==> rs[k] == []
    decreases |rs|
  {
    if rs != [] {
      var init := rs[..|rs| - 1];
      KeptTextsEmptyIff(init);
      if forall k :: 0 <= k < |rs| ==> rs[k] == [] {
        assert forall k :: 0 <= k < |init| ==> init[k] == rs[k];
      } else {
        var k :| 0 <= k < |rs| && rs[k] != [];
        if k < |rs| - 1 {
          assert init[k] == rs[k];
        }
      }
    }
  }

  /** The report `main` ends with, for given fetch outcomes. */
  function CorpusReport(works: seq<Fetch>): Report {
    var corpus := KeptTexts(Results(works));
    if corpus == [] then NoData else Saved(Join(corpus, WorkSeparator), TotalLength(corpus))
  }

  /** `main`, with the URLs replaced by what fetching each of them gives:
      the corpus is built by appending each non-empty result in turn. */
  method BuildCorpus(works: seq<Fetch>) returns (report: Report)
    ensures report == CorpusReport(works)
  {
    var fullCorpus: seq<string> := [];
    var i := 0;
    while i < |works|
      invariant 0 <= i <= |works|
      invariant fullCorpus == KeptTexts(Results(works)[..i])
    {
      var text := DownloadAndProcess(works[i]);
      assert Results(works)[..i + 1][..i] == Results(works)[..i];
      if text != [] {
        fullCorpus := fullCorpus + [text];
      }
      i := i + 1;
    }
    assert Results(works)[..|works|] == Results(works);
    if fullCorpus != [] {
      var totalChars := TotalLength(fullCorpus);
      report := Saved(Join(fullCorpus, WorkSeparator), totalChars);
    } else {
      report := NoData;
    }
  }

  /** The corpus is written exactly when some work gives a non-empty text. */
  lemma SavedIff(works: seq<Fetch>)
    ensures CorpusReport(works).Saved? <==> exists k :: 0 <= k < |works| && DownloadAndProcess(works[k]) != []
  {
    var rs := Results(works);
    assert |rs| == |works| && forall k :: 0 <= k < |works| ==> rs[k] == DownloadAndProcess(works[k]);
    KeptTextsEmptyIff(rs);
  }

  /** The reported total counts the characters of the works but not the
      separators: the written text is longer by two per neighbouring pair,
      and the total is at least the number of works kept. */
  lemma SavedLength(works: seq<Fetch>)
    ensures var r := CorpusReport(works);
            r.Saved? ==> |r.contents| == r.totalChars + 2 * (|KeptTexts(Results(works))| - 1)
    ensures var r := CorpusReport(works);
            r.Saved? ==> r.totalChars >= |KeptTexts(Results(works))|
  {
    var corpus := KeptTexts(Results(works));
    if corpus != [] {
      JoinLength(corpus, WorkSeparator);
      NonEmptyTotal(corpus);
    }
  }

  /** Strings that are all non-empty have at least one character each. */
  lemma {:induction false} NonEmptyTotal(ls: seq<string>)
    requires forall k :: 0 <= k < |ls| ==> ls[k] != []
    ensures TotalLength(ls) >= |ls|
    decreases |ls|
  {
    if ls != [] {
      NonEmptyTotal(ls[1..]);
    }
  }

  /** `s.split("\n\n")`: the pieces between the leftmost non-overlapping
      occurrences of a blank line. */
  function SplitWorks(s: string): (r: seq<string>)
    ensures |r| > 0
    decreases |s|
  {
    if |s| >= 2 && s[0] == '\n' && s[1] == '\n' then [[]] + SplitWorks(s[2..])
    else if s == [] then [[]]
    else
      var rest := SplitWorks(s[1..]);
      [[s[0]] + rest[0]] + rest[1..]
  }

  /** A text has no two line breaks in a row and no trailing line break, as
      every cleaned text does. */
  predicate Separable(t: string) {
    (t == [] || t[|t| - 1] != '\n')
    && forall i :: 0 <= i < |t| - 1 ==> !(t[i] == '\n' && t[i + 1] == '\n')
  }

  /** A separable text is split off whole before a separator. */
  lemma {:induction false} SplitWorksAfter(a: string, b: string)
    requires Separable(a)
    ensures SplitWorks(a + WorkSeparator + b) == [a] + SplitWorks(b)
    decreases |a|
  {
    var s := a + WorkSeparator + b;
    if a == [] {
      assert s[2..] == b;
    } else {
      var a' := a[1..];
      assert Separable(a') by {
        forall i | 0 <= i < |a'| - 1 ensures !(a'[i] == '\n' && a'[i + 1] == '\n') {
          assert a'[i] == a[i + 1] && a'[i + 1] == a[i + 2];
        }
      }
      assert s[0] == a[0] && s[1..] == a' + WorkSeparator + b;
      assert !(s[0] == '\n' && s[1] == '\n') by {
        if |a| > 1 {
          assert s[1] == a[1];
        }
      }
      SplitWorksAfter(a', b);
      assert [a[0]] + a' == a;
    }
  }

  /** A separable text is not split at all. */
  lemma {:induction false} SplitWorksWhole(a: string)
    requires Separable(a)
    ensures SplitWorks(a) == [a]
    decreases |a|
  {
    if a != [] {
      var a' := a[1..];
      assert Separable(a') by {
        forall i | 0 <= i < |a'| - 1 ensures !(a'[i] == '\n' && a'[i + 1] == '\n') {
          assert a'[i] == a[i + 1] && a'[i + 1] == a[i + 2];
        }
      }
      assert !(|a| >= 2 && a[0] == '\n' && a[1] == '\n');
      SplitWorksWhole(a');
      assert [a[0]] + a' == a;
    }
  }

  /** Separable texts joined by blank lines are recovered by splitting. */
  lemma {:induction false} SplitWorksJoin(ts: seq<string>)
    requires |ts| > 0
    requires forall k :: 0 <= k < |ts| ==> Separable(ts[k])
    ensures SplitWorks(Join(ts, WorkSeparator)) == ts
    decreases |ts|
  {
    if |ts| == 1 {
      SplitWorksWhole(ts[0]);
    } else {
      SplitWorksJoin(ts[1..]);
      SplitWorksAfter(ts[0], Join(ts[1..], WorkSeparator));
      assert [ts[0]] + ts[1..] == ts;
    }
  }

  /** Every cleaned text is separable. */
  lemma CleanSeparable(text: string)
    ensures Separable(Clean(text))
  {
    CleanShape(text);
    ShapeSeparable(Clean(text));
  }

  /** A text that does not end with a line break and has no two line breaks
      in a row is separable. */
  lemma ShapeSeparable(r: string)
    requires r == [] || r[|r| - 1] != '\n'
    requires !Contains(r, "\n\n")
    ensures Separable(r)
  {
    forall i | 0 <= i < |r| - 1 ensures !(r[i] == '\n' && r[i + 1] == '\n') {
      assert !StartsWith(r[i..], "\n\n");
      assert r[i..][..2] == [r[i], r[i + 1]];
    }
  }

  /** Every result of a work is separable. */
  lemma ProcessedSeparable(f: Fetch)
    ensures Separable(DownloadAndProcess(f))
  {
    if f.Archive? && TextEntries(f.entries) != [] {
      CleanSeparable(TextEntries(f.entries)[0].text);
    }
  }

  /** The corpus can be split back: splitting the written text at blank lines
      gives the kept works, in URL order. */
  lemma CorpusSplitsBack(works: seq<Fetch>)
    ensures var r := CorpusReport(works);
            r.Saved? ==> SplitWorks(r.contents) == KeptTexts(Results(works))
  {
    var rs := Results(works);
    var corpus := KeptTexts(rs);
    if corpus == [] {
      return;
    }
    forall k | 0 <= k < |corpus| ensures Separable(corpus[k]) {
      KeptTextsIff(rs, corpus[k]);
      var j :| 0 <= j < |rs| && rs[j] == corpus[k];
      ProcessedSeparable(works[j]);
    }
    SplitWorksJoin(corpus);
  }
}
