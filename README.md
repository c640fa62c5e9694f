# Configuration baseline comparison, modelled in Dafny

This project models `filter_plugins/config_comparison.py`, a set of Ansible filters
that check the running configuration of a network device against a security baseline.
The model has three stages:

- **Section extractor** (`extract_config_sections`). The `network_os` tag selects a
  platform table of patterns: `ios`, `nxos` and `eos` select Cisco, `comware` selects
  H3C and `ce` selects Huawei. Each pattern is searched through the whole
  configuration text, as `re.findall` does, and every match is joined with line breaks,
  in table order and then in text order. An unknown tag returns the input unchanged.
  For a known tag, an empty or absent configuration gives `""`.
- **Normaliser** (`normalize_config`). It splits the text at `'\n'` and strips each
  line. It keeps the lines that are not empty and do not start with `!` or `#`, in
  their original order.
- **Comparator** (`compare_with_baseline`, `_is_similar_config`, `_generate_summary`).
  It looks at each baseline line in order:
  - If the running lines hold it verbatim, nothing is reported.
  - Otherwise, if the first running line with the same command keyword (same first
    whitespace-delimited token) exists, a `{baseline, running}` pair is reported.
  - Otherwise the line is reported missing.

  The result record also holds `has_differences`, an `extra_configs` list that is
  always empty, and a summary string.

Modules, one per file:

- `Wrappers` holds `Option`, which stands for Python's `None`.
- `Text` holds the Python string operations the filters use:
  - `str.strip()` and `str.split()`, over the full `str.isspace` character set;
  - `str.split('\n')` and `'sep'.join`;
  - decimal formatting of counts.
- `Normalizer`, `Comparator` and `Extractor` model the three stages.

Every pattern in the tables has one of two regular-expression shapes, so the model
matches them by hand:

- **`Greedy(kw)`** is `kw.*` under `re.DOTALL`. It matches from the first occurrence
  of `kw` to the end of the whole text, so there is at most one match.
- **`Lazy(kw, stops)`** is `kw.*?(?=\n<alt>|...|\Z)`. Each occurrence of `kw` starts a
  match, which ends at the nearest later position where one of the alternatives
  holds, or at the end of the text. The search resumes where the match ended. An
  alternative is either `\n` followed by a literal (`\nline`, `\n!`, `\n#`,
  `\nuser-interface`) or `\n[a-z]`.

Two consequences of the code are worth stating:

- A whitespace-only line has first token `""`, so two such lines are similar. See
  `Comparator.BlankSimilar`.
- The patterns have no `^` anchor, so a keyword matches wherever it occurs, including
  in the middle of a line.

The three pattern tables are the constants `Extractor.CiscoPatterns` (lines 32-39),
`Extractor.H3cPatterns` (lines 54-60) and `Extractor.HuaweiPatterns` (lines 75-80).
They copy each keyword and each lookahead alternative in the source's order.

## Model

| member | source | states |
|---|---|---|
| Text.Strip | filter_plugins/config_comparison.py:98 | the stripped line is no longer than the input, and it is empty or starts and ends with a non-whitespace character |
| Text.StripOfPadded | filter_plugins/config_comparison.py:98 | stripping `a + m + b`, with `a` and `b` whitespace and `m` free of whitespace at both ends, gives exactly `m` |
| Text.StripDecompose | filter_plugins/config_comparison.py:98 | every text is whitespace, then its stripped form, then whitespace |
| Text.StripIdempotent | filter_plugins/config_comparison.py:98 | stripping twice is the same as stripping once |
| Text.StripKeepsOut | filter_plugins/config_comparison.py:98 | stripping introduces no character that was absent, in particular no line break |
| Text.Join | filter_plugins/config_comparison.py:47 | `sep.join(parts)` for `'\n'.join` (line 47) and `"; ".join` (line 167): the parts in order with `sep` between neighbours, `""` for no parts; `Text.SplitLinesOfJoin` and `Text.JoinedLinesAreInfixes` state its properties |
| Text.SplitLines | filter_plugins/config_comparison.py:97 | `split('\n')` gives at least one piece, no piece holds a line break, and joining the pieces with `'\n'` gives the text back |
| Text.SplitLinesAtBreak | filter_plugins/config_comparison.py:97 | splitting `a + "\n" + b` is splitting `a` followed by splitting `b` |
| Text.SplitLinesOfJoin | filter_plugins/config_comparison.py:97 | splitting undoes joining with `'\n'` for pieces without line breaks |
| Text.SplitLinesWithoutBreak | filter_plugins/config_comparison.py:97 | a text without line breaks splits into itself alone |
| Text.LineIsInfix | filter_plugins/config_comparison.py:97 | every piece of `split('\n')` is a contiguous piece of the text |
| Text.JoinedLinesAreInfixes | filter_plugins/config_comparison.py:47 | joining pieces of a text with `'\n'` yields only lines that are contiguous pieces of that text |
| Text.WordsFrom | filter_plugins/config_comparison.py:148 | every word of `split()` is non-empty and holds no whitespace |
| Text.WordsFromBlank | filter_plugins/config_comparison.py:148 | `split()` of the rest of a text is empty exactly when that rest is blank |
| Text.WordsFromAt | filter_plugins/config_comparison.py:148 | when the text is whitespace, then a word, then whitespace or its end, `split()` is that word followed by `split()` of what follows; with `Text.WordsFromBlank` this fixes `split()` on every text |
| Text.FirstToken | filter_plugins/config_comparison.py:148-149 | the first run of non-whitespace characters after leading whitespace; `Text.FirstTokenIsFirstWord` proves it equal to `split()[0] if split() else ""` |
| Text.FirstTokenIsFirstWord | filter_plugins/config_comparison.py:148-149 | the first token is `split()[0]` when `split()` is non-empty and `""` otherwise |
| Text.FirstTokenOf | filter_plugins/config_comparison.py:148-149 | after optional leading whitespace, the first token is the word that ends at whitespace or at the end of the line |
| Text.FirstTokenBlank | filter_plugins/config_comparison.py:148-149 | the first token is `""` exactly when the line is empty or all whitespace |
| Text.NatToString | filter_plugins/config_comparison.py:159 | a count prints as one or more decimal digits with no leading zero |
| Text.DecimalRoundTrip | filter_plugins/config_comparison.py:162 | reading the printed digits back gives the count |
| Normalizer.NormalizeConfig | filter_plugins/config_comparison.py:90-102 | the loop returns the stripped non-comment lines in order; `[]` for absent or empty text |
| Normalizer.KeptMembers | filter_plugins/config_comparison.py:97-100 | a line is kept exactly when it is the stripped form of an input line and is not empty, `!` or `#` |
| Normalizer.NormalizedMembers | filter_plugins/config_comparison.py:92-102 | `normalize_config` returns exactly the stripped, non-empty, non-comment lines of the input |
| Normalizer.KeptAreNormal | filter_plugins/config_comparison.py:97-100 | every kept line is stripped, is not empty or a comment, and holds no line break |
| Normalizer.NormalizedAreNormal | filter_plugins/config_comparison.py:97-100 | every line of `normalize_config` output is stripped, is not empty or a comment, and holds no line break |
| Normalizer.KeptOfNormal | filter_plugins/config_comparison.py:97-100 | filtering lines that are already normal returns them unchanged |
| Normalizer.NormalizeIdempotent | filter_plugins/config_comparison.py:97-100 | normalising the `'\n'`-joined output again gives the same lines |
| Comparator.FirstSimilarFrom | filter_plugins/config_comparison.py:120-128 | the index found is the first running line at or after the start with the same first token; none means no such line |
| Comparator.FirstSimilarIsFirstOfFamily | filter_plugins/config_comparison.py:120-128 | the search result is exactly the first running line in the baseline line's command family |
| Comparator.CompareLine | filter_plugins/config_comparison.py:117-131 | one pass of the outer loop adds nothing for a verbatim line, a pair for the first family match, and the line to `missing` otherwise |
| Comparator.CompareWithBaseline | filter_plugins/config_comparison.py:104-141 | the missing and different lists are those of every baseline line in order; absent inputs are empty; `extra_configs` is `[]`; `has_differences` holds exactly when a list is non-empty; the summary follows from the two counts |
| Comparator.AlteredDiffers | filter_plugins/config_comparison.py:117-127 | the family match always differs from the baseline line, so the `baseline_line != running_line` guard always holds, and each baseline line yields one entry or none |
| Comparator.PartitionCount | filter_plugins/config_comparison.py:116-131 | the missing and different counts add up to the number of baseline lines that the running lines do not hold verbatim |
| Comparator.AbsentMembers | filter_plugins/config_comparison.py:116-117 | a line is among the absent baseline lines exactly when it is in the baseline and not in running |
| Comparator.HasDifferencesIff | filter_plugins/config_comparison.py:133 | `has_differences` holds exactly when some baseline line is not held verbatim by the running lines |
| Comparator.MissingStepMembers | filter_plugins/config_comparison.py:117-131 | one baseline line is appended to `missing_configs` exactly when it is not in running and no running line shares its first token |
| Comparator.DifferentStepMembers | filter_plugins/config_comparison.py:117-128 | one baseline line yields a pair exactly when it is not in running and the pair's running line is the first of its family; the two lines differ |
| Comparator.MissingMembers | filter_plugins/config_comparison.py:117-131 | a line is missing exactly when it is in the baseline, not in running, and no running line shares its first token |
| Comparator.DifferentMembers | filter_plugins/config_comparison.py:117-128 | a pair is reported exactly when its baseline line is absent and its running line is the first of the same family; the two lines of a pair never coincide |
| Comparator.IsSimilarConfig | filter_plugins/config_comparison.py:143-152 | two lines are similar when their first tokens are equal; its properties are stated by the three lemmas below |
| Comparator.SimilarIsSplitTest | filter_plugins/config_comparison.py:143-152 | similarity is equality of `split()[0]`, with `""` for a line without words, and never fails |
| Comparator.SimilarByKeyword | filter_plugins/config_comparison.py:147-150 | two indented keyword lines are similar exactly when their keywords are equal |
| Comparator.BlankSimilar | filter_plugins/config_comparison.py:148-150 | a blank or whitespace-only line is similar exactly to the blank or whitespace-only lines |
| Comparator.GenerateSummary | filter_plugins/config_comparison.py:154-167 | the summary is the missing clause and/or the found clause, in that order and joined by `"; "`, or the match message when both counts are zero |
| Comparator.SummaryMatchesIff | filter_plugins/config_comparison.py:164-165 | the summary is `"Configuration matches baseline"` exactly when both counts are zero |
| Extractor.PlatformOf | filter_plugins/config_comparison.py:17-22 | `ios`, `nxos` and `eos` give the Cisco platform, `comware` gives H3C, `ce` gives Huawei, and any other tag gives none |
| Extractor.FindKeyword | filter_plugins/config_comparison.py:43 | the position found is the first occurrence of the keyword at or after the start; none means it does not occur there |
| Extractor.NextStop | filter_plugins/config_comparison.py:34-36 | the lookahead `(?=...|\Z)` first holds at the position found, which is at most the end of the text |
| Extractor.MatchEnd | filter_plugins/config_comparison.py:33-38 | a `kw.*` match ends at the end of the text; a lazy match ends at the first lookahead position after the keyword |
| Extractor.SpansFrom | filter_plugins/config_comparison.py:43 | `findall` matches each start at a keyword occurrence, end where the pattern stops, and follow one another without overlap |
| Extractor.SpansCover | filter_plugins/config_comparison.py:43 | every occurrence of the keyword lies inside some match, so `findall` skips none |
| Extractor.FindAll | filter_plugins/config_comparison.py:43 | `re.findall` for a table pattern: the text of each match of `Extractor.SpansFrom` from position 0, in order |
| Extractor.GreedyMatchesRest | filter_plugins/config_comparison.py:37-38 | a greedy pattern gives no match, or the single match from its first occurrence to the end of the text |
| Extractor.FindAllAreSections | filter_plugins/config_comparison.py:43-45 | every match is non-empty, begins with the pattern's keyword and is a contiguous piece of the text |
| Extractor.FindAllEmptyIff | filter_plugins/config_comparison.py:43-44 | `findall` finds nothing exactly when the keyword does not occur |
| Extractor.ExtractSections | filter_plugins/config_comparison.py:41-47 | the loop collects every pattern's matches in table order and returns them joined by `'\n'`; absent or empty text gives `""` |
| Extractor.ExtractCiscoSections | filter_plugins/config_comparison.py:27-47 | the Cisco extractor is the table loop over the Cisco patterns |
| Extractor.ExtractH3cSections | filter_plugins/config_comparison.py:49-68 | the H3C extractor is the table loop over the H3C patterns |
| Extractor.ExtractHuaweiSections | filter_plugins/config_comparison.py:70-88 | the Huawei extractor is the table loop over the Huawei patterns |
| Extractor.ExtractConfigSections | filter_plugins/config_comparison.py:14-25 | `ios`, `nxos` and `eos` use the Cisco table, `comware` the H3C table and `ce` the Huawei table; any other tag returns the input unchanged |
| Extractor.AllMatchesAreSections | filter_plugins/config_comparison.py:41-47 | every extracted section is non-empty, a contiguous piece of the text, and begins with a keyword of the table |
| Extractor.AllMatchesEmptyIff | filter_plugins/config_comparison.py:41-47 | nothing is extracted exactly when no keyword of the table occurs in the text |
| Extractor.ExtractionEmptyIff | filter_plugins/config_comparison.py:29-47 | an extractor returns `""` exactly when the configuration is absent, empty or holds no keyword of its table |
| Extractor.ExtractedLinesAreInfixes | filter_plugins/config_comparison.py:41-47 | every line of the extractor's output is a contiguous piece of the configuration |

## Left out

- `FilterModule.filters` (lines 6-12) is not modelled. It only registers the filters with Ansible. The unused `AnsibleFilterError` import (line 4) is also left out.
- Python's `re` engine is not modelled in general. Only the two pattern shapes used by the tables are matched, by hand. `re.MULTILINE` changes only `^` and `$`, which no pattern uses, so it has no counterpart.
- The `network_os` argument of `normalize_config`, `compare_with_baseline` and `_is_similar_config` is accepted and never used, so the model omits it.
- Inputs are strings, lists of strings, or `None`. Other Python values and their truthiness are not modelled. For strings, `split()` cannot raise, so the `except` branch of `_is_similar_config` (lines 151-152) cannot be reached. It is not modelled.
- The three `_extract_*` functions repeat the same loop with different tables. The model has that loop once, in `Extractor.ExtractSections`, and each extractor calls it with its own table.
- Comparator.CompareWithBaseline: the inner loop of lines 117-131 is in `Comparator.CompareLine`. That method returns what one baseline line adds to each list, and the outer loop appends it, in the same order as the source.
- The result dictionary and its `{'baseline', 'running'}` entries are records (`DiffResult`, `ConfigPair`). Key names and dictionary identity are not modelled.
- Counts in the summary are formatted by `Text.NatToString`. This is the decimal text that an f-string produces for a non-negative `int`.
