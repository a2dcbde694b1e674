# DevTypingMaster scoring core in Dafny

DevTypingMaster is a Streamlit typing trainer for programmers. The user picks a
language in the sidebar and gets a random code snippet from a fixed bank. They
retype the snippet and submit it. The page then shows three things:

- the accuracy: the `difflib.SequenceMatcher` similarity ratio of snippet and
  attempt, in percent;
- the speed: the number of five-character words per minute;
- optionally, a line-by-line `difflib.ndiff` comparison report.

This project models that computation as pure functions and proves what it
guarantees. The modules are:

- `Matching`: `SequenceMatcher` without junk.
  - `find_longest_match` is specified by its documented contract: the longest
    block, ties broken by the earliest position in the first sequence and then
    in the second.
  - `get_matching_blocks` is the recursive split around the longest match. Its
    blocks come out in increasing order, adjacent blocks are merged, and a
    `(len(a), len(b), 0)` sentinel ends the list.
  - `ratio()` is `2M/T`, or 1 for two empty sequences.
- `Scoring`: `calculate_metrics`, that is, the accuracy, the speed and the
  `ZeroDivisionError` of a zero duration.
- `Lines`: `str.splitlines()` with all of Python's line boundaries, and
  `"\n".join`.
- `Differ`: `ndiff` over lines, in three steps:
  - `get_opcodes` turns the matching blocks into opcodes;
  - `Differ.compare` dispatches on each opcode;
  - `_fancy_replace` searches a replaced region for a pair of lines to synchronise
    on, and falls back to `_plain_replace`.

  The rendered report is read back line by line. Its `"  "` and `"- "` lines are
  the snippet's lines, and its `"  "` and `"+ "` lines are the typed lines.
- `Catalog`: the snippet bank, the sidebar's language options and the random
  choice of a snippet.
- `Session`: one submission from snippet choice to report.

The random draw, the simulated duration and the character-level similarity
ratio of two lines are inputs.

Python's `difflib` is not part of the repository. The model follows its
behaviour in CPython up to version 3.12.

## Model

| member | source | states |
|---|---|---|
| Matching.LongestMatch | app.py:41 | the block returned lies in the region, its two slices are equal, no matching block in the region is longer, and among equally long ones it is the earliest in a and then in b |
| Matching.LongestMatchIsUnique | app.py:41 | at most one block meets the longest-match contract, so the result does not depend on how the search is carried out |
| Matching.LongestMatchIsEmptyIff | app.py:41 | for any region of a and b, the longest match is empty exactly when no element of a's region occurs in b's region |
| Matching.MatchingBlocks | app.py:41 | the blocks are non-empty, their slices are equal, and they lie inside the region in strictly increasing order in both sequences |
| Matching.GetMatchingBlocks | app.py:41 | the list ends with the sentinel (len(a), len(b), 0); before it come increasing, non-overlapping equal blocks of which no two are adjacent; the total matched is at most the length of each sequence |
| Matching.MatchesOfMatchingBlocks | app.py:41 | the merge pass of get_matching_blocks (modelled by `Matching.Collapse`): merging adjacent blocks does not change the number of matched elements |
| Matching.GetMatchingBlocksOfEqual | app.py:41 | a sequence compared with itself gives one block covering it (none if it is empty) and the sentinel |
| Matching.Ratio | app.py:42 | the ratio is defined as 2M/T, M being the number of matched elements and T the total length of both sequences, or 1 for two empty sequences; it lies between 0 and 1 |
| Matching.RatioOfEqual | app.py:42 | identical sequences have ratio 1, two empty ones included |
| Matching.RatioIsOneIff | app.py:42 | the ratio is 1 exactly when the sequences are equal |
| Matching.MatchesIsZeroIff | app.py:41 | no element is matched exactly when the sequences share no element |
| Matching.RatioIsZeroIff | app.py:42 | the ratio is 0 exactly when the sequences share no element and are not both empty |
| Scoring.Accuracy | app.py:42 | the accuracy lies between 0 and 100 |
| Scoring.AccuracyIsFullIff | app.py:41-42 | the accuracy is 100 exactly when the attempt equals the target |
| Scoring.AccuracyOfEmpty | app.py:41-42 | an empty attempt at an empty target scores 100 |
| Scoring.AccuracyIsZeroIff | app.py:41-42 | the accuracy is 0 exactly when target and attempt share no character and are not both empty |
| Scoring.AccuracyOfFinalTypo | app.py:41-42 | an attempt that is right except for a wrong last character scores 100·n/(n+1), n being the length of the correct prefix |
| Scoring.Wpm | app.py:43 | the speed is 12·len(typed)/duration; for a positive duration it is at least 0 and is 0 exactly when nothing was typed; for a negative one it is at most 0 |
| Scoring.CalculateMetrics | app.py:40-44 | fails exactly when the duration is 0; otherwise the accuracy is in [0, 100] and is 100 exactly when the attempt equals the target, and for a positive duration the speed is at least 0 and is 0 exactly for an empty attempt |
| Scoring.ExactAttempt | app.py:40-44 | retyping "print(1)" exactly in 10 seconds gives accuracy 100 and 9.6 words per minute |
| Scoring.OneTypoAttempt | app.py:40-44 | three characters typed in 6 seconds with only the last one wrong (such as "abd" for "abc") give accuracy 200/3 and 6 words per minute |
| Lines.LineEnd | app.py:74 | the index returned is the first line boundary at or after the start, or the end of the text |
| Lines.SplitLines | app.py:74 | no line returned holds a line boundary |
| Lines.SplitJoin | app.py:74-75 | `"\n".join` (modelled by `Lines.Join`): splitting lines joined with newlines gives back the lines, when none holds a boundary and the last is not empty |
| Differ.GetOpcodes | app.py:74 | the opcodes tile both sequences from start to end: each starts where the previous ended, equal opcodes cover equal slices, and replace, delete and insert opcodes cover the gaps between blocks |
| Differ.ChainIsClosed | app.py:74 | a chain of increasing, non-empty equal blocks followed by the sentinel (len(a), len(b), 0) is the closed block list that get_opcodes reads |
| Differ.OpcodesFromTile | app.py:74 | such a closed list of blocks turns into opcodes that tile the rest of both sequences |
| Differ.DumpProjects | app.py:74 | `_dump` (modelled by `Differ.Dump`): a run of lines of one kind shows those lines on its own side and nothing on the other |
| Differ.PlainReplaceProjects | app.py:74 | `_plain_replace` (modelled by `Differ.PlainReplace`): a plain replace shows the whole region of each side, whichever side is written first |
| Differ.SearchSync | app.py:74 | _fancy_replace's search, with j in the outer loop and i in the inner one: started from a state that is true to the pairs visited before (i, j), it ends true to every pair of the region. The remembered pair is the first pair of identical lines, and is absent only when no two lines are identical. The best ratio bounds the similarity of every pair of different lines. Once above 0.74, it is the similarity of a pair of different lines that is strictly more similar than every pair of different lines visited before it. The best ratio only grows |
| Differ.ChooseSynch | app.py:74 | the synch pair lies inside the region. A similar pair is a pair of different lines whose similarity reaches 0.75, is the highest of the region, and is strictly higher than that of every pair of different lines before it in the search. An identical pair is the first pair of identical lines, and no pair of different lines reaches 0.75. With no pair, no two lines are identical and none reaches 0.75 |
| Differ.FancyReplaceProjects | app.py:74 | `_fancy_replace` (modelled by `Differ.FancyReplace` and `Differ.FancyHelper`): a fancy replace shows exactly the region's lines of the snippet on the "  "/"- " side and those of the attempt on the "  "/"+ " side, whatever the similarity |
| Differ.FancyHelperProjects | app.py:74 | the same for a region that may be empty on either side |
| Differ.DispatchProjects | app.py:74 | the opcode dispatch of `Differ.compare` (modelled by `Differ.Dispatch`): each opcode's output shows exactly the opcode's two ranges |
| Differ.CompareOpsProjects | app.py:74 | the loop of `Differ.compare` over the opcodes (modelled by `Differ.CompareOps`): opcodes that tile both sequences produce a report showing exactly the rest of each sequence |
| Differ.Compare | app.py:74 | the report's "  " and "- " lines are the first sequence and its "  " and "+ " lines are the second, in order |
| Differ.CompareOfOneChangedLine | app.py:74 | a snippet p, q, r typed as p, s, r, where s is a new line not similar enough to q and q and s differ from their neighbours, gets the report: p unchanged, q removed, s added, r unchanged |
| Differ.CompareOfEqual | app.py:74 | an attempt typed line for line as the snippet gets a report of unchanged lines only |
| Differ.TextsAreLines | app.py:74 | when both sides of a report are line-break-free, so is every line of it |
| Differ.Parse | app.py:75 | a line read back as a diff line formats to exactly that line |
| Differ.ParseFormat | app.py:75 | reading a formatted diff line back gives the diff line |
| Differ.ParseAllFormatAll | app.py:75 | reading formatted report lines back gives the report |
| Differ.RenderSplits | app.py:75 | the report text (modelled by `Differ.Render`, the formatted lines joined with newlines): the displayed text splits back into the formatted report lines |
| Differ.ComparisonReport | app.py:74-75 | the displayed report, split and read back, shows the snippet's lines on its "  "/"- " side and the typed lines on its "  "/"+ " side |
| Catalog.SelectSnippet | app.py:49 | the choice succeeds exactly for a language of the bank, the snippet chosen is one of that language's snippets, and an unknown language is refused |
| Catalog.EveryLanguageHasSnippets | app.py:16-32 | every language in the bank has a snippet, so choosing never fails for it |
| Catalog.EverySnippetCanBeChosen | app.py:49 | every snippet of a language is the choice of some draw |
| Catalog.OptionsAreTheLanguages | app.py:48 | the sidebar offers exactly the bank's languages, each once |
| Catalog.UnknownLanguageFails | app.py:49 | a language outside the bank is refused |
| Session.Submit | app.py:48-75 | the round succeeds exactly for a bank language; the snippet comes from that language; with a duration between 5 seconds and the 30 to 180 second limit, the metrics always exist, the accuracy is in [0, 100] and is 100 exactly for an exact attempt, and the speed is at least 0 and is 0 exactly for an empty attempt; the report exists exactly when asked for and shows the snippet's and the attempt's lines |

## Left out

- The Streamlit page is not modelled: page setup, widgets, expander and metric display.
- `format_code` (Pygments HTML highlighting) is foreign code and only produces display markup.
- `time.time()` is not modelled: its value is stored and never used in a computation.
- `random.choice` and `random.randint` are inputs: a draw and a duration.
- `round(x, 2)` is not modelled: the accuracy and the speed are exact reals, and Python's binary floating point is not modelled.
- Matching.Ratio: computed without `SequenceMatcher`'s autojunk heuristic.
  - The heuristic ignores very frequent characters when the typed text has 200 characters or more.
  - For such attempts, the model's "accuracy 0 exactly when no character is shared" does not describe the program.
- Differ.Compare: `ndiff` compares lines with the same heuristic. The model omits it, which affects attempts of 200 lines or more.
- Matching.LongestMatch: the result is computed by an exhaustive search, not difflib's dynamic-programming loop. Both meet the same contract, and that contract determines the result uniquely.
- Differ.SynchLines: the `"? "` hint lines that `ndiff` writes after a pair of similar lines are not modelled. The `"- "` and `"+ "` lines of the pair are.
- Differ.ChooseSynch: the character-level similarity of two lines is a parameter. In the program it is the ratio of a `SequenceMatcher` that treats blanks and tabs as junk.
- Differ.SearchSync: difflib tries `real_quick_ratio()` and `quick_ratio()` before `ratio()`. Both are upper bounds of `ratio()`, so those tests do not change the outcome, and the model compares the similarity directly.
- Differ.FancyReplace: follows the search of CPython 3.12 and earlier.
  - Later versions restrict the search to a window, which can change which pair of lines is synchronised.
  - The projection properties hold for any choice of pair.
- Symmetry of the accuracy (swapping snippet and attempt) is not promised by `difflib`, so it is not stated.
- Scoring.CalculateMetrics: only a duration of 0 raises (`ZeroDivisionError`); a negative duration gives a speed of 0 or below, and the model follows the code.
- Catalog.SelectSnippet: `random.choice` on an empty list raises `IndexError`, modelled as `NoSnippet`. No language of the bank has an empty list.
