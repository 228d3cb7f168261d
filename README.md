# Aozora Bunko text cleaner, modelled in Dafny

`get_dazai_writings.py` downloads works by Dazai Osamu from Aozora Bunko.
For each work it takes the first `.txt` file of the ZIP archive and cleans it
with `clean_aozora_text`. It then writes all non-empty results to one corpus,
separated by blank lines.

The cleaner works in these steps:
1. Delete reading annotations `《…》` (ruby).
2. Delete editorial notes `［＃…］`.
3. Delete every ruby separator `｜`.
4. Split the text into lines.
5. Skip the header. It ends at the second line containing the 55-hyphen rule.
6. Look for the colophon that begins with `底本：` or `底本の親本：`, to cut the footer.
7. Drop blank lines, right-strip the others and join them with `\n`.

Modules and files:

- `strings.dfy` (module `Strings`): the Python `str` operations the cleaner uses, with their laws.
  - `isspace`, `strip`/`rstrip`, `startswith`, `endswith`, `in`;
  - `split` on one character, with `Split(Join(ls)) == ls`;
  - `join`, with its length and shape.
- `markup.dfy` (module `Markup`): the two `re.sub` calls with pattern `open [^close]+ close` as one scanner, `RemoveSpans`, and the third `re.sub` as `RemoveChar`.
  - `RemoveSpans` works like Python's regex engine: leftmost match, single pass, a match ends at the first closer, and the body must not be empty.
- `cleaner.dfy` (module `Cleaner`): `clean_aozora_text`.
  - The function `Clean` is its specification.
  - The method `CleanAozoraText` follows the source statement by statement, with the header and footer loops as `ScanHeader` and `ScanFooter`. It is proved equal to `Clean`.
  - The header and footer lemmas are stated for any rule string. The cleaner uses `Rule`.
- `corpus.dfy` (module `Corpus`): the two callers.
  - `download_and_process_aozora` becomes `DownloadAndProcess`, over an abstract fetch outcome.
  - `main`'s collection loop becomes `BuildCorpus`, proved equal to `CorpusReport`.
  - The lemmas show that the written corpus splits back into the kept works.

Notes on the code as written:
- The footer loop tests the variable `line` left over from the header loop, not `lines[i]`. That line is the second rule line when the header loop stopped there, and the last line otherwise. So the footer is either not cut at all, or everything after the header is dropped.
  - `FooterEnd`, `Body`, `ColophonKept`, `ColophonRuleEmpties` and `CleanWithoutHeader` state the consequences.
  - If there are fewer than two rule lines and the last line begins with `底本：`, the result is empty.
  - So cleaning is not idempotent as written. A file with a header, whose text ends in a colophon line and a final line break, keeps that colophon. Cleaning the output again finds no header, and the stale line is then the colophon, so the result is empty. `CleanNotIdempotent` proves this.
- The rule literal in the source has 55 hyphens. The model uses exactly that.
- The notes step is a single left-to-right pass with a two-character opener, so it can leave a note behind. In `［［＃x］＃y］` the inner note is removed and `［＃y］` remains. `NoteRemovalCanLeaveNote` proves this.
  - The ruby step has a one-character opener and provably leaves no match (`RubyRemovalComplete`).

## Model

| member | source | states |
|---|---|---|
| Markup.MatchLen | get_dazai_writings.py:19-21 | the length of the pattern `open [^close]+ close` matched at the start of a string, if any: the opener, a non-empty body without the closer, then the first closer |
| Markup.RemoveSpans | get_dazai_writings.py:19-21 | removing matches only deletes characters: the result is no longer than the input, and its multiset of characters is contained in the input's |
| Markup.KeepsMatchFreePrefix | get_dazai_writings.py:19-21 | characters where no match starts are kept, in order, ahead of the rest |
| Markup.LeftmostMatchRemoved | get_dazai_writings.py:19-21 | the leftmost match is removed whole, up to its first closer, so inner openers and line breaks go with it; scanning resumes after it |
| Markup.UnchangedIffMatchFree | get_dazai_writings.py:19-21 | a substitution leaves the text unchanged if and only if no match occurs anywhere in it |
| Markup.SingleOpenerLeavesNoMatch | get_dazai_writings.py:19 | with a one-character opener distinct from the closer, no match remains after the substitution |
| Markup.RubyRemovalComplete | get_dazai_writings.py:19 | after the ruby step no `《`, non-empty non-`》` body, `》` remains |
| Markup.NoteRemovalCanLeaveNote | get_dazai_writings.py:21 | for `［［＃x］＃y］` the notes step gives `［＃y］`, which is itself a note: one pass does not remove every note |
| Markup.EmptyRubyKept | get_dazai_writings.py:19 | a text beginning with an empty `《》` keeps it: no match starts inside it, and the text after it is scanned as usual |
| Markup.EmptyRubyKeptAfter | get_dazai_writings.py:19 | an empty `《》` that the scan reaches, that is, one not inside an earlier match, is kept, and the text after it is scanned as usual (in `《a《》` the leftmost match swallows it) |
| Markup.EmptyNoteKept | get_dazai_writings.py:21 | a text beginning with an empty `［＃］` keeps it: no match starts inside it, and the text after it is scanned as usual |
| Markup.EmptyNoteKeptAfter | get_dazai_writings.py:21 | an empty `［＃］` that the scan reaches, one not inside an earlier match, is kept, and the text after it is scanned as usual |
| Markup.RemoveChar | get_dazai_writings.py:23 | the character is gone and every other character is kept, with its count |
| Markup.RemoveCharAppend | get_dazai_writings.py:23 | deleting a character works piecewise: order is preserved |
| Strings.Split | get_dazai_writings.py:26 | `split("\n")` gives at least one piece, no piece holds the separator, and joining the pieces gives the text back |
| Strings.SplitJoin | get_dazai_writings.py:26 | splitting the join of separator-free pieces recovers the pieces |
| Strings.RStrip | get_dazai_writings.py:53 | `rstrip()` is the prefix that keeps everything but the trailing whitespace; it is empty exactly when the line is blank |
| Strings.JoinShape | get_dazai_writings.py:52-54 | joining non-empty pieces without the separator never begins or ends with it or repeats it |
| Strings.JoinLength | get_dazai_writings.py:134-136 | a join is as long as its pieces plus one separator per neighbouring pair |
| Strings.SplitAvoids | get_dazai_writings.py:23-26 | a character missing from the text is missing from every line |
| Cleaner.StripMarkup | get_dazai_writings.py:19-23 | after the three substitutions no `｜` is left |
| Cleaner.Lines | get_dazai_writings.py:26 | there is always at least one line, lines hold no line break or `｜`, and they join back into the stripped text |
| Cleaner.RuleCountMonotone | get_dazai_writings.py:32-34 | a longer prefix of the lines holds at least as many rule lines |
| Cleaner.HeaderEnd | get_dazai_writings.py:31-37 | the body start is 0 exactly when fewer than two lines contain the rule, and otherwise one past a rule line preceded by exactly one other |
| Cleaner.SecondRuleUnique | get_dazai_writings.py:33-35 | only one line contains the rule with exactly one rule line before it, so "the second rule line" is well defined |
| Cleaner.SecondRuleEndsHeader | get_dazai_writings.py:33-37 | the body starts right after the second line that contains the rule as a substring |
| Cleaner.ScanHeader | get_dazai_writings.py:31-37 | the header loop computes the body start, the rule count capped at 2, and leaves `line` on the second rule line or on the last line |
| Cleaner.FooterEnd | get_dazai_writings.py:40-44 | `start_idx <= end_idx <= len(lines)` |
| Cleaner.ScanFooter | get_dazai_writings.py:40-44 | the footer loop stops at the start index exactly when the stale `line` is a colophon line and the range is non-empty, else leaves the end at `len(lines)` |
| Cleaner.Body | get_dazai_writings.py:40-49 | the sliced lines are a prefix of what follows the header, either empty or all of it; empty exactly when the header runs to the end or the stale line begins with a colophon label |
| Cleaner.KeepLines | get_dazai_writings.py:53 | every kept line is non-empty and has no trailing whitespace, `\r` included |
| Cleaner.KeptLineIff | get_dazai_writings.py:53 | a line is in the output list exactly when it is the right-stripped form of a non-blank body line |
| Cleaner.KeepLinesAppend | get_dazai_writings.py:53 | the filter keeps the original order |
| Cleaner.KeepLinesAvoid | get_dazai_writings.py:53 | right-stripping and filtering introduce no character |
| Cleaner.CleanAozoraText | get_dazai_writings.py:7-56 | the statement-by-statement procedure, including the reset at lines 46-47 (proved not to change the start index), computes `Clean` |
| Cleaner.BodyAvoids | get_dazai_writings.py:49 | every body line is a line of the text, so a character missing from every line is missing from every body line |
| Cleaner.CleanLinesAvoid | get_dazai_writings.py:49-54 | a character other than the line break that no line holds does not reach the output |
| Cleaner.CleanOmitsRubyBar | get_dazai_writings.py:23-54 | the cleaned text contains no `｜` |
| Cleaner.KeptJoinShape | get_dazai_writings.py:52-54 | the joined output never begins or ends with a line break, never holds `\n\n`, and splits back into the kept lines |
| Cleaner.CleanLinesShape | get_dazai_writings.py:49-54 | for any list of lines without line breaks and any rule, the output has that shape and its lines are the kept body lines |
| Cleaner.CleanShape | get_dazai_writings.py:7-56 | the same for the whole cleaner: output lines are exactly the kept body lines, each non-empty without trailing whitespace |
| Cleaner.CleanWithoutHeader | get_dazai_writings.py:40-47 | with fewer than two rule lines nothing is skipped at the top, but a last line beginning with a colophon label empties the result |
| Cleaner.ColophonKept | get_dazai_writings.py:40-44 | after a header, a colophon line in the body is kept unless the second rule line itself begins with a colophon label: the footer is not cut |
| Cleaner.ColophonRuleEmpties | get_dazai_writings.py:40-44 | a second rule line that begins with a colophon label empties the result |
| Cleaner.FirstPassKeepsColophon | get_dazai_writings.py:31-44 | for lines `[t, r, n, r, b, c, ""]` with `r` the rule lines, the stale line is the second rule line, so nothing after the header is cut and the result is `b + "\n" + c` |
| Cleaner.SecondPassEmpties | get_dazai_writings.py:31-44 | for lines `[b, c]` with no rule line and `c` a colophon line, the result is empty |
| Cleaner.CleanNotIdempotent | get_dazai_writings.py:26-56 | cleaning the lines of the first pass's output again gives `""`, although the first pass kept `b + "\n" + c`: the cleaner is not idempotent as written |
| Corpus.TextEntries | get_dazai_writings.py:76-78 | the listed entries all have names ending in `.txt` |
| Corpus.TextEntriesIff | get_dazai_writings.py:76-78 | an entry is listed exactly when it is in the archive and its name ends in `.txt` |
| Corpus.FirstTextEntry | get_dazai_writings.py:82 | the chosen entry is the first `.txt` entry in archive order |
| Corpus.DownloadAndProcess | get_dazai_writings.py:69-92 | a failure, or an archive without a `.txt` entry, gives `""` |
| Corpus.ProcessedFirstText | get_dazai_writings.py:76-88 | otherwise the result is the cleaned text of the first `.txt` entry |
| Corpus.KeptTexts | get_dazai_writings.py:120-123 | every kept text is non-empty, and no more texts are kept than there are results |
| Corpus.KeptTextsIff | get_dazai_writings.py:122-123 | a text is kept exactly when it is a non-empty result, so `""` is dropped like a failure |
| Corpus.KeptTextsAppend | get_dazai_writings.py:116-123 | results are kept in URL order |
| Corpus.KeptTextsEmptyIff | get_dazai_writings.py:122-132 | nothing is kept exactly when every result is `""` |
| Corpus.BuildCorpus | get_dazai_writings.py:114-140 | the loop and the final branch produce the report of the kept texts: the `"\n\n"` join and the character total, or no data |
| Corpus.SavedIff | get_dazai_writings.py:132-134 | the corpus is written exactly when some result is non-empty |
| Corpus.SavedLength | get_dazai_writings.py:134-136 | the total excludes the separators: the written string is longer by two per neighbouring pair, and the total is at least the number of works |
| Corpus.NonEmptyTotal | get_dazai_writings.py:136 | non-empty texts contribute at least one character each |
| Corpus.SplitWorksJoin | get_dazai_writings.py:134 | texts with no two line breaks in a row and no trailing line break, joined by `"\n\n"`, are recovered by splitting at `"\n\n"` |
| Corpus.CleanSeparable | get_dazai_writings.py:52-54 | every cleaned text has no two line breaks in a row and no trailing line break |
| Corpus.CorpusSplitsBack | get_dazai_writings.py:114-134 | splitting the string written to the corpus file at `"\n\n"` gives back the kept works in URL order |

## Left out

- HTTP fetching and `raise_for_status`: network I/O. A fetch is given as its outcome, `Fetch`.
- ZIP parsing and entry reading: a foreign library. An archive is its entries in archive order, each with a name and a text. With duplicate names the model reads the first entry of that name; `z.open` would open the last one.
- Shift_JIS decoding with `errors="ignore"`: a foreign codec. The entry text is taken already decoded.
- The broad `except` and printing of the error: every failure becomes `Failed`, whose result is `""`.
- All console output: the progress lines, the 50-character sample and the final messages. Also the opening and writing of the output file: the `Saved` report holds the string passed to `f.write`.
- Newline translation on writing: the file is opened in text mode, so each `"\n"` of the written string becomes `os.linesep` on disk. `Saved.contents` is the string before that translation; it equals the file's bytes only where `os.linesep` is `"\n"` (and apart from the UTF-8 encoding).
- The hardcoded URL list and the output filename: plain data. `BuildCorpus` takes any list of fetch outcomes.
- `IsSpace` is written from CPython's `str.isspace` table. It is not derived from the source, so it is only as accurate as that table.
- A general regex engine: only the two fixed patterns of the form `open [^close]+ close`, and the single-character deletion, are modelled.
