# convert_indent in Dafny

A model of the indentation converter `convert_indent.py`. The tool reads a
text file and rewrites its indentation. In one direction, every tab becomes
four spaces. In the other (`--to_tabs`), every occurrence of four spaces
found by a left-to-right, non-overlapping scan becomes one tab (a run of
`n` spaces becomes `n / 4` tabs followed by `n % 4` spaces). It then writes the result back in place,
or to an output path when one is given.

The model has three modules:

- `StrReplace` (`str_replace.dfy`) models Python's `str.replace` for a
  non-empty pattern as `ReplaceAll`. The left-to-right scan replaces a match
  and skips past it, or keeps one character and moves on. The module also
  defines `Occurs` (the pattern appears somewhere) and `MatchCount` (how many
  matches the scan replaces). It proves the length accounting and the
  "unchanged if and only if nothing matched" law.
- `IndentConverter` (`indent_converter.dfy`) defines `ConvertIndent(text,
  toTabs)`, which instantiates `ReplaceAll` the way the source does. Each
  direction is tied to an independent reference definition:
  - `ExpandTabs` maps each character on its own, a tab to four spaces.
  - `ContractSpaces` turns each maximal run of `n` spaces into `n / 4` tabs
    followed by `n % 4` spaces.
  The round trips and the order-keeping property are proved through these
  definitions. The other properties are proved by induction along the
  `ReplaceAll` scan itself: no tab or no four-space run left, the length
  change, identity exactly when there is nothing to convert, and the lossy
  counterexamples. The module also checks the documented examples.
- `FileProcessor` (`file_processor.dfy`) models `process_file` and the
  output-argument rule of `main` over a file system `map<Path, Text>`.
  A run reads the input path, converts its text and updates exactly one
  path. That path is the output path when one is given, otherwise the
  input path. `main` turns an empty output argument into "none".

`process_file` tests only `output_file is None` (convert_indent.py:37), and
`main` maps an empty argument to `None` (convert_indent.py:57). So
`ProcessFile` called directly with `Some("")` fails with `FileNotFound("")`,
as Python's `open('')` does, while `Run` treats `Some("")` as in-place.

## Model

| member | source | states |
|---|---|---|
| `StrReplace.ReplaceAll` | convert_indent.py:16-18 | `str.replace` for a non-empty pattern: every character of the result comes from the text or from the replacement; its length, fixed points and scan steps are stated by `ReplaceAllLength`, `ReplaceAllUnchangedIff`, `ReplaceAllPrefix` and `ReplaceAllSkip` |
| `StrReplace.ReplaceAllLength` | convert_indent.py:16-18 | each replaced match changes the length by the replacement's length minus the pattern's: the result's length is the input's plus `MatchCount` times that difference |
| `StrReplace.MatchCountZero` | convert_indent.py:16-18 | the scan replaces nothing exactly when the pattern does not occur |
| `StrReplace.ReplaceAllNoMatch` | convert_indent.py:16-18 | text in which the pattern does not occur is returned unchanged |
| `StrReplace.ReplaceAllUnchangedIff` | convert_indent.py:16-18 | if the replacement's length differs from the pattern's, the text is unchanged if and only if the pattern does not occur |
| `StrReplace.OccursSingle` | convert_indent.py:18 | a one-character pattern occurs exactly when the character is in the text |
| `IndentConverter.ConvertIndent` | convert_indent.py:4-18 | the result equals `ContractSpaces(text)` when converting to tabs and `ExpandTabs(text)` when converting to spaces |
| `IndentConverter.ToSpacesIsExpandTabs` | convert_indent.py:18 | replacing every tab by four spaces equals the per-character reference `ExpandTabs` |
| `IndentConverter.ToSpacesRemovesTabs` | convert_indent.py:18 | after converting to spaces, no tab is left |
| `IndentConverter.ToSpacesLength` | convert_indent.py:18 | converting to spaces grows the text by exactly 3 characters per tab in the input |
| `IndentConverter.ToSpacesKeepsOthers` | convert_indent.py:18 | all other characters are kept in their order: erasing spaces from the output gives the input without tabs and spaces |
| `IndentConverter.ToSpacesUnchangedIffNoTab` | convert_indent.py:17-18 | converting to spaces leaves the text unchanged if and only if it contains no tab |
| `IndentConverter.ToTabsRun` | convert_indent.py:16 | a run of `n` spaces followed by a non-space becomes `n / 4` tabs, then `n % 4` spaces, then the converted rest |
| `IndentConverter.ToTabsShortRun` | convert_indent.py:16 | a run of fewer than four spaces followed by a non-space is kept as it is |
| `IndentConverter.ToTabsIsContractSpaces` | convert_indent.py:16 | the left-to-right, non-overlapping replacement of four spaces by a tab equals the run-based reference `ContractSpaces` |
| `IndentConverter.ToTabsScan` | convert_indent.py:16 | the scan's output has no four-space run, starts with at most 3 spaces, and keeps a leading run of fewer than 4 spaces |
| `IndentConverter.ToTabsNoFourSpaces` | convert_indent.py:16 | after converting to tabs, no run of four spaces is left |
| `IndentConverter.ToTabsLength` | convert_indent.py:16 | converting to tabs shrinks the text by exactly 3 characters per replaced group of four spaces (an 8-space run counts as two groups) |
| `IndentConverter.ToTabsTabBalance` | convert_indent.py:16 | converting to tabs removes exactly 3 characters for each tab it adds: the output's length plus 3 times its tab count equals the input's |
| `IndentConverter.UnchangedIffNothingToConvert` | convert_indent.py:15-18 | in either direction, the text is returned unchanged if and only if there is nothing to convert (no tab, or no four-space run) |
| `IndentConverter.RoundTripWithoutSpaces` | convert_indent.py:16-18 | text without spaces survives converting to spaces and then back to tabs |
| `IndentConverter.RoundTripWithoutTabs` | convert_indent.py:16-18 | text without tabs survives converting to tabs and then back to spaces |
| `IndentConverter.ToSpacesThenTabsIsLossy` | convert_indent.py:16-18 | three spaces and a tab come back as a tab and three spaces, so the round trip is lossy in general |
| `IndentConverter.ToTabsThenSpacesIsLossy` | convert_indent.py:16-18 | a tab comes back as four spaces, so the other round trip is lossy too |
| `IndentConverter.ExampleEmpty` | convert_indent.py:15-18 | the empty text maps to the empty text in both directions |
| `IndentConverter.ExampleFourSpaces` | convert_indent.py:16 | four spaces become one tab |
| `IndentConverter.ExampleEightSpaces` | convert_indent.py:16 | eight spaces become two tabs |
| `IndentConverter.ExampleFiveSpaces` | convert_indent.py:16 | five spaces become a tab followed by one space |
| `IndentConverter.ExampleThreeSpaces` | convert_indent.py:16 | three spaces are left unchanged |
| `IndentConverter.ExampleTab` | convert_indent.py:18 | one tab becomes four spaces |
| `IndentConverter.ExampleFileToSpaces` | convert_indent.py:18 | `"\tfoo\n\t\tbar\n"` becomes `"    foo\n        bar\n"` |
| `IndentConverter.ExampleFileToTabs` | convert_indent.py:16 | `"    foo\n"` becomes `"\tfoo\n"` |
| `FileProcessor.EffectiveOutput` | convert_indent.py:37-38 | the path written is the input path exactly when no output path is given or the given one is the same path string; a given output path is used as it is |
| `FileProcessor.ProcessFile` | convert_indent.py:30-41 | fails with `FileNotFound` if and only if the input cannot be read or the effective output path cannot be opened, naming the input path in the first case and the output path in the second; otherwise the effective output path (the output path if given, else the input path) holds the converted input text and every other path is unchanged |
| `FileProcessor.OutputArgument` | convert_indent.py:57 | an output argument survives exactly when it is given and non-empty, and then unchanged; an empty one becomes none |
| `FileProcessor.Run` | convert_indent.py:57-63 | a command-line run fails if and only if its input file cannot be read, and then with `FileNotFound` for the input path; an empty output argument never causes a failure |
| `FileProcessor.RunInPlace` | convert_indent.py:37-38 | with no output argument or an empty one, the input file is overwritten with its converted text and nothing else changes |
| `FileProcessor.RunToOutput` | convert_indent.py:57 | a non-empty output path receives the converted text, and an input path with a different string keeps its contents |
| `FileProcessor.RunMissingInput` | convert_indent.py:30-31 | a missing input file is reported as `FileNotFound` for that path |
| `FileProcessor.ExampleRunToSpaces` | convert_indent.py:30-41 | a one-file run without `--to_tabs` rewrites `"\tfoo\n\t\tbar\n"` in place as `"    foo\n        bar\n"` |
| `FileProcessor.ExampleRunToTabs` | convert_indent.py:57 | a one-file run with `--to_tabs` and an empty output argument rewrites `"    foo\n"` in place as `"\tfoo\n"` |

## Left out

- Python's `str.replace` with an empty pattern is not modelled (`ReplaceAll` requires a non-empty pattern). Both call sites in convert_indent.py pass a non-empty one.
- EffectiveOutput, RunToOutput: paths are compared as strings. Different names for one file (`a.py` and `./a.py`, an absolute and a relative spelling, a symbolic or hard link, letter case on a case-insensitive file system) are modelled as different files. So "the input keeps its contents" holds only when the output path names a different file; otherwise Python overwrites the input.
- ProcessFile: the file system maps each path to the text Python's text mode reads, after newline translation. Reading with the default `newline=None` (convert_indent.py:30) turns `\r\n` and `\r` into `\n`, and writing (convert_indent.py:40) turns `\n` into the platform's line separator. So a file with CRLF endings is written back with the platform's endings even when it has nothing to convert; the model does not show this rewriting.
- File contents are modelled as already-decoded text. UTF-8 decoding and encoding, and the `DecodeError` raised for invalid input bytes, are left out.
- `ProcessFile` models only two I/O failures. One is a missing input path. The other is the empty path, which Python's `open` rejects. Permission errors, a missing parent directory and a full disk depend on the operating system, which the path-to-text map does not describe.
- Failures are shown as results, not as exceptions that end the process. Exit codes and messages are left out.
- The direct, non-atomic overwrite is left out: a write either happens completely or, on the failures above, not at all. Partially written files are file-system behaviour, not part of the code's logic.
- `argparse` parsing in `main` (convert_indent.py:44-54) is a foreign library and is left out. `Run` takes the already-parsed input path, optional output argument and `--to_tabs` flag. Only the empty-to-none rule of line 57 and the call at line 63 are modelled.
- Concurrent runs against the same path are left out. The model describes one sequential run.
