# Markdown section checker

A Dafny model of the Markdown section checker (`validate_markdown`). The checker
answers one question: does a Markdown document contain a given list of
level-2 sections? It has three parts.

- **Heading extraction** (`extract_h2_sections`):
  - each line of the text is stripped of surrounding whitespace;
  - only lines at heading level exactly 2 are kept, so `##` must not be followed by a third `#`;
  - the `##` marker is dropped, a trailing run of `#` is removed, and the rest is trimmed and lowercased;
  - names that end up empty are discarded;
  - the result is the set of names that remain.
- **Section matching** (`validate_sections`): every required name is lowercased and trimmed. The names not among the found ones are `missing`. The verdict is valid exactly when nothing is missing.
- **File check** (`validate_markdown_file`): a readable file goes through extraction and then matching. An unreadable one is invalid, with every required name missing.

The command line exits with 0 on a valid verdict and 1 otherwise.

The implementation module `tools/validate_markdown.py` is not part of this model. The behaviour modelled here is the one its unit tests in `tests/test_validate_markdown.py` pin down. The extraction, matching, file and exit-code tests are also proved about the model, as lemmas.

Files:

- `wrappers.dfy`: the `Option` type. The model receives the result of reading the file as an `Option<string>`; `None` means the file could not be read.
- `text.dfy`: the string operations the model describes the checker with, each stated as the Python operation it stands for:
  - `strip`, `lstrip` and `rstrip` over a set of characters;
  - Python's whitespace set;
  - ASCII lowercasing;
  - line splitting at the line boundaries of `str.splitlines`.
  Each comes with lemmas that characterise it.
- `validate_markdown.dfy`: heading recognition, extraction, matching, the file check and the exit code, with their properties.
- `validate_markdown_examples.dfy`: the concrete cases from the unit tests, proved about the model.

## Model

| member | source | states |
|---|---|---|
| Text.LStrip | tests/test_validate_markdown.py:44-47 | Python's `lstrip(chars)`; characterised by Text.LStripSpec |
| Text.RStrip | tests/test_validate_markdown.py:49-52 | Python's `rstrip(chars)`; the model removes a heading's trailing `#` run with it; characterised by Text.RStripSpec |
| Text.Strip | tests/test_validate_markdown.py:44-47 | Python's `strip(chars)`; characterised by Text.StripSpec and Text.StripIdempotent |
| Text.Trim | tests/test_validate_markdown.py:44-68 | Python's `strip()` over its whitespace set, applied to every line and every required name; empty exactly when the input is all whitespace (Text.TrimEmpty) |
| Text.StripSpec | tests/test_validate_markdown.py:44-47 | stripping returns a contiguous slice of the input; everything cut from either end is in the stripped set; neither end of the result is in that set |
| Text.LStripSpec | tests/test_validate_markdown.py:44-47 | left stripping removes a prefix made only of stripped characters and stops at the first character outside the set |
| Text.RStripSpec | tests/test_validate_markdown.py:49-52 | right stripping removes a suffix made only of stripped characters and stops at the last character outside the set |
| Text.TrimEmpty | tests/test_validate_markdown.py:44-47 | trimming gives the empty string exactly when every character is whitespace |
| Text.StripIdempotent | tests/test_validate_markdown.py:44-47 | stripping a second time changes nothing |
| Text.StripAround | tests/test_validate_markdown.py:49-52 | stripping removes exactly the padding around a string whose ends are not in the set |
| Text.Lower | tests/test_validate_markdown.py:56-68 | lowercasing keeps the length, leaves no ASCII capital, and maps each character through the ASCII lowercase mapping |
| Text.LowerIdempotent | tests/test_validate_markdown.py:56-68 | lowercasing twice is lowercasing once |
| Text.TrimLowerCommute | tests/test_validate_markdown.py:56-68 | trimming and lowercasing commute |
| Text.Lines | tests/test_validate_markdown.py:22-40 | splitting gives at least one line and no line contains a line boundary |
| Text.LinesOfJoin | tests/test_validate_markdown.py:22-40 | splitting lines joined with a newline gives back those lines |
| Text.LinesConcat | tests/test_validate_markdown.py:49-52 | the lines of `a`, a boundary, `b` are the lines of `a` followed by the lines of `b` |
| Markdown.IsCanonical | tests/test_validate_markdown.py:45-47 | the canonical form of a section name: non-empty, no whitespace at either end, no ASCII capital; every extracted name has it (Markdown.ExtractH2Sections) |
| Markdown.Normalize | tests/test_validate_markdown.py:56-68 | a normalised name is empty exactly when the raw name is all whitespace; otherwise it is canonical: no surrounding whitespace and no capital |
| Markdown.NormalizeCanonical | tests/test_validate_markdown.py:63-68 | a name already canonical normalises to itself |
| Markdown.NormalizeIdempotent | tests/test_validate_markdown.py:56-68 | normalising a normalised name changes nothing |
| Markdown.IsLevelTwo | tests/test_validate_markdown.py:44-47 | a stripped line is at heading level exactly 2: `##` not followed by a third `#`; Markdown.LevelTwoExact states it as the length of the leading `#` run |
| Markdown.LevelTwoExact | tests/test_validate_markdown.py:44-47 | a stripped line is at level 2 exactly when its leading run of `#` has length 2, so `# Title` and `### NotThis` are not |
| Markdown.HeadingName | tests/test_validate_markdown.py:44-52 | a line names a section only when its stripped form is at level 2; the name is canonical and is the normalised body after the trailing `#` run is removed |
| Markdown.BlankHeadingDropped | tests/test_validate_markdown.py:44-47 | a level-2 line names nothing exactly when its body is whitespace followed only by `#` |
| Markdown.SimpleHeadingName | tests/test_validate_markdown.py:49-52 | `## title`, then optional spaces and `#` run, then padding, names the lowercased title |
| Markdown.ExtractFromLines | tests/test_validate_markdown.py:44-47 | a name is extracted exactly when some line names it, and every extracted name is canonical |
| Markdown.ExtractH2Sections | tests/test_validate_markdown.py:44-52 | a name is found in a text exactly when one of its lines names it; every found name is canonical |
| Markdown.ExtractFromLinesAppend | tests/test_validate_markdown.py:44-47 | the names of two runs of lines together are the union of their names |
| Markdown.ExtractConcat | tests/test_validate_markdown.py:44-47 | the sections of two texts joined at a line boundary are the union of their sections |
| Markdown.ExtractOneLine | tests/test_validate_markdown.py:49-52 | a single line gives its own name, or nothing |
| Markdown.ExtractOrderIndependent | tests/test_validate_markdown.py:44-47 | the order of two parts of a document does not change the sections found |
| Markdown.ExtractDuplicatesCollapse | tests/test_validate_markdown.py:44-47 | repeating a document does not change the sections found |
| Markdown.NonLevelTwoLineIgnored | tests/test_validate_markdown.py:44-47 | a line not at level 2 adds nothing, wherever it stands |
| Markdown.NormalizedNames | tests/test_validate_markdown.py:56-61 | a name is required exactly when it is the normal form of some entry of the list; every required name is canonical or empty; the set is empty exactly when the list is |
| Markdown.NormalizedNamesCaseInsensitive | tests/test_validate_markdown.py:56-68 | lists that agree entry by entry after lowercasing require the same names |
| Markdown.NormalizedNamesOrderIndependent | tests/test_validate_markdown.py:56-68 | lists with the same entries, in any order and with any repetition, require the same names |
| Markdown.ValidateSections | tests/test_validate_markdown.py:56-68 | missing is exactly the normalised required names not found; valid exactly when missing is empty, and exactly when every required name's normal form is found |
| Markdown.ValidateNothingRequired | tests/test_validate_markdown.py:63-68 | with nothing required the verdict is valid with nothing missing |
| Markdown.ValidateMonotone | tests/test_validate_markdown.py:56-68 | finding more sections never adds a missing name and never turns a valid verdict invalid |
| Markdown.ValidateCaseInsensitive | tests/test_validate_markdown.py:56-61 | required lists that agree after lowercasing give the same verdict |
| Markdown.ValidatePreNormalized | tests/test_validate_markdown.py:63-68 | normalising the required names beforehand does not change the verdict |
| Markdown.ValidateMarkdownFile | tests/test_validate_markdown.py:72-91 | an unreadable file is invalid with all normalised names missing; a readable one gets the verdict of matching its sections; valid exactly when readable with every name found; missing never exceeds the required names |
| Markdown.ReadableVerdictConsistent | tests/test_validate_markdown.py:77-91 | for a readable file, valid exactly when nothing is missing |
| Markdown.BlankRequiredNameNeverFound | tests/test_validate_markdown.py:56-61 | a required name made only of whitespace can never be satisfied and is reported as the empty name |
| Markdown.ExitCode | tests/test_validate_markdown.py:119-125 | the exit code is 0 or 1, and 0 exactly when the file is readable and every required section is found |
| MarkdownExamples.SampleMdLines | tests/test_validate_markdown.py:22-40 | the sample document splits into its seventeen lines |
| MarkdownExamples.SummaryName | tests/test_validate_markdown.py:36 | `## Summary ####` names `summary` |
| MarkdownExamples.ExtractSample | tests/test_validate_markdown.py:44-47 | the sample's sections are exactly `overview`, `details` and `summary` |
| MarkdownExamples.ExtractTrailingHashesAndSpaces | tests/test_validate_markdown.py:49-52 | `## Heading ####   ` then `Text` gives exactly `heading` |
| MarkdownExamples.SpacedHashRunKept | tests/test_validate_markdown.py:49-52 | only the final run of `#` is removed: `## A # #` names `a #` |
| MarkdownExamples.ValidateMissingAndPresent | tests/test_validate_markdown.py:56-61 | found `overview`, `details`, required `Overview`, `Summary`: invalid, missing `summary` |
| MarkdownExamples.ValidateAllPresent | tests/test_validate_markdown.py:63-68 | found `overview`, `details`, `summary`, required `overview`, `DETAILS`: valid, nothing missing |
| MarkdownExamples.MissingFileReturnsFalse | tests/test_validate_markdown.py:72-75 | an unreadable file with `any` required: invalid, missing `any` |
| MarkdownExamples.MissingFileNothingRequired | tests/test_validate_markdown.py:72-75 | an unreadable file with nothing required: invalid, with nothing missing |
| MarkdownExamples.FileValidWhenAllSectionsPresent | tests/test_validate_markdown.py:77-83 | the sample with `overview`, `summary` required: valid, nothing missing |
| MarkdownExamples.FileInvalidWhenAnyMissing | tests/test_validate_markdown.py:85-91 | the sample with `overview`, `bogus` required: invalid, missing `bogus` |
| MarkdownExamples.MainSuccessExitCodeZero | tests/test_validate_markdown.py:119-121 | the sample with `overview`, `summary` required exits with 0 |
| MarkdownExamples.MainFailureWhenMissingSection | tests/test_validate_markdown.py:123-125 | the sample with `overview`, `missing` required exits with 1 |

## Left out

- Argument parsing and the `--version` flag (tests/test_validate_markdown.py:94-104): command-line plumbing in front of the library functions.
- Creating temporary files, reading the file and printing the report in `main` (tests/test_validate_markdown.py:107-117): this is I/O. The read is a parameter of type `Option<string>`, and the exit code is a function of it.
- The YAML/JSON-Schema validator (tests/test_validate_yaml.py): its checks are made by an external JSON Schema library and a YAML parser, neither of which is part of this model.
- Markdown.Normalize: lowercasing is ASCII only, not Python's full Unicode `str.lower`; only `A`–`Z` change.
- Text.Lines: how the implementation splits a text into lines is not part of this model. The model splits at every boundary of `str.splitlines`: `\n`, `\r`, `\v`, `\f`, `\x1c`–`\x1e`, `\x85`, `\u2028` and `\u2029`. An implementation that split only at `\n` would keep the other characters inside a line and so inside its name: `## A\fB` would name `a\fb`, whereas the model gives `a`. Within that reading, splitting follows `str.splitlines` except that the text after the last line break is always a line. So an empty text, or one ending in a line break, gets an extra empty last line (`a\n` gives `a` and an empty line). Also, `\r\n` counts as two boundaries, which adds an empty line between them. None of this changes which sections are found, because an empty line never names one.
- Markdown.NormalizedNames: a required name is only trimmed and lowercased; a trailing `#` is kept, so `Summary ##` is looked for as `summary ##`. The tests never pass a required name ending in `#`.
- Markdown.ExtractH2Sections: the extracted names are canonical (lowercase, no surrounding whitespace) but not always free of a trailing `#`. Removing the final `#` run before trimming leaves an earlier run that whitespace separates from it, e.g. `## A # #` gives `a #`.
- Markdown.ValidateMarkdownFile: "valid exactly when nothing is missing" holds only for a readable file; an unreadable file with nothing required is invalid with nothing missing.
- The implementation `tools/validate_markdown.py` is not part of this model; where the tests leave a choice open, the model takes the reading stated above.
