# Discharge-summary section extraction, modelled in Dafny

`DCSummaryParser` (data_parsers.py) takes discharge summaries and pulls two clinical-note sections out of each one. It uses two fixed, case-insensitive regular expressions:

- **History of present illness (HPI).** The text after "history of present illness" or "history of the present illness", plus one colon directly after the phrase if there is one. It ends where the earliest of six terminators begins ("past medical history:", "physical exam:", "physical examination:", "exam:", "hospital course:", "social history:").
- **Hospital course.** The text after "hospital course" and an optional header. The header is 0 to 50 characters, none of them a newline, followed by a colon. The section ends where the earliest of ten terminators begins.

In `both` mode the two sections are joined with a separator line. A missing section makes the joined value missing. `to_csv` then adds the result to the frame as a new column and keeps only the rows where that column is present.

The model has five modules:

- `Wrappers` holds `Option`. `None` is pandas' NaN cell.
- `PhraseSearch` holds case-insensitive phrase matching over `string` (ASCII letters are lowered before comparing) and the lazy body `[\s\S]*?` followed by an alternation (`EarliestFrom`, `LazyBody`).
- `HpiPattern` and `HospCoursePattern` each follow the regex engine's order of attempts for one pattern. `MatchAt` tries one start position and backtracks over `:?` or over the greedy `.{0,50}:` header. `Search` tries positions 0, 1, … like `re.search`. Each module then proves that this search gives what the match attempt at the first occurrence of the start phrase gives, so the search over start positions drops out (`Leftmost`). It also describes the result without any backtracking: for HPI this is `Reference`, and for hospital course `Declarative` (with `HeaderChosen`, the header rule). The section properties follow from these.
- `DataParsers` holds `parse_docs` (`ParseDoc`, `ParseDocs`, `Join`, the `Section` enumeration with default `HospCourse`), the frame with its column assignment, and the row filter of `to_csv`.

Definitions used below:
- `StartEnd(text, p)` is the position just after the start phrase that begins at `p`.
- `BodyStart(text, p)` is that position plus one if a colon follows the phrase.
- Python's `.` does not match a newline, so a hospital-course header never contains one.

## Model

| member | source | states |
|---|---|---|
| `PhraseSearch.EarliestFrom` | data_parsers.py:17-18 | the lazy body stops at the earliest position at or after `i` where a terminator begins, with no terminator before it; None exactly when no terminator begins at or after `i` |
| `PhraseSearch.LazyBody` | data_parsers.py:17-18 | `([\s\S]*?)(terminators)` from `s`: a slice starting at `s` and ending at the earliest terminator, or None when no terminator follows |
| `HpiPattern.MatchAt` | data_parsers.py:17 | a successful attempt at `p` has a start phrase at `p` and captures a slice ending at a terminator, with no terminator beginning inside it |
| `HpiPattern.Search` | data_parsers.py:17 | the HPI match is a contiguous slice of the text; it ends where a terminator begins and no terminator begins inside it (lazy body) |
| `HpiPattern.AfterStartExact` | data_parsers.py:17 | giving back the optional colon never yields a match: the body starts after the colon when one follows, and ends at the earliest terminator after the phrase |
| `HpiPattern.MatchAtExact` | data_parsers.py:17 | one attempt succeeds exactly at a start phrase followed by a terminator, spanning `BodyStart` to the earliest terminator at or after `StartEnd` |
| `HpiPattern.StartEndMonotone` | data_parsers.py:17 | a later start phrase never ends before an earlier one |
| `HpiPattern.Leftmost` | data_parsers.py:17 | leftmost-match semantics: the backtracking search equals the result fixed by the first start phrase and the earliest terminator after it |
| `HpiPattern.Exact` | data_parsers.py:17 | when the first start phrase is at `p` and the earliest terminator at or after its end is at `q`, the HPI cell is exactly `text[BodyStart(text, p)..q]` |
| `HpiPattern.AbsentWithoutStart` | data_parsers.py:17 | no start phrase anywhere: the HPI cell is absent |
| `HpiPattern.AbsentWithoutTerminator` | data_parsers.py:17 | no terminator begins after the first start phrase: the HPI cell is absent |
| `HpiPattern.Presence` | data_parsers.py:17 | the HPI cell is present if and only if a start phrase occurs and a terminator begins at or after the end of the first one |
| `HpiPattern.CaseInsensitive` | data_parsers.py:17 | texts that differ only in the case of ASCII letters give the same match span, so both are present or both absent |
| `HpiPattern.ExampleWithoutSections` | data_parsers.py:17 | "no relevant sections here" has no HPI cell |
| `HospCoursePattern.HeaderRun` | data_parsers.py:18 | greedy `.{0,50}` takes at most 50 characters and no newline, and stops only at a newline, the end of the text, or the limit |
| `HospCoursePattern.HeaderFrom` | data_parsers.py:18 | the backtracking over the header yields a slice after the phrase that ends at a terminator, with no terminator inside |
| `HospCoursePattern.HeaderFromSpec` | data_parsers.py:18 | header lengths are tried from `k` down to 0, then the group is skipped: every longer header ending in a colon has no terminator after it; None exactly when no terminator follows the phrase |
| `HospCoursePattern.ValidHeaderWithinRun` | data_parsers.py:18 | every header of 0-50 non-newline characters ending in a colon lies within what the greedy run takes first |
| `HospCoursePattern.MatchAt` | data_parsers.py:18 | a successful attempt has the phrase at `p` and a body starting after it that ends at a terminator |
| `HospCoursePattern.Search` | data_parsers.py:18 | the hospital-course match is a contiguous slice ending where a terminator begins, with no terminator beginning inside it |
| `HospCoursePattern.MatchAtExact` | data_parsers.py:18 | an attempt at the phrase succeeds if and only if a terminator begins after it, and the body then starts where the longest-header-first rule puts it |
| `HospCoursePattern.Leftmost` | data_parsers.py:18 | the search equals the match attempt at the first occurrence of "hospital course" |
| `HospCoursePattern.Presence` | data_parsers.py:18 | the hospital-course cell is present if and only if the phrase occurs and a terminator begins at or after the end of its first occurrence |
| `HospCoursePattern.AbsentWithoutStart` | data_parsers.py:18 | no "hospital course" anywhere: the cell is absent |
| `HospCoursePattern.HeaderLongestFirst` | data_parsers.py:18 | the body follows either no header or a valid header (0-50 non-newline characters then `:`), and every longer valid header has no terminator after it |
| `HospCoursePattern.HeaderChosenUnique` | data_parsers.py:18 | at most one body start both obeys the header rule and leaves a terminator after it |
| `HospCoursePattern.Declarative` | data_parsers.py:18 | after the first "hospital course", the search returns span `sp` if and only if its start obeys the longest-header-first rule and `sp` runs from there to the earliest terminator, with none inside |
| `HospCoursePattern.CaseInsensitive` | data_parsers.py:18 | texts that differ only in the case of ASCII letters give the same match span |
| `DataParsers.Join` | data_parsers.py:25 | the joined cell is present if and only if both parts are; it then splits back into HPI, the separator line, and hospital course |
| `DataParsers.BothMode` | data_parsers.py:21-25 | 'both' mode is absent when either section is absent, and otherwise equals `hpi + "\n======================\n" + hosp` |
| `DataParsers.ParseDocs` | data_parsers.py:13-30 | one cell per document, in document order, each the requested section of its own document; the section defaults to hospital course |
| `DataParsers.Unmatched` | data_parsers.py:22-23 | the not-matched count is at most the number of documents, and zero exactly when every cell is present |
| `DataParsers.Kept` | data_parsers.py:40 | the filter keeps every present cell and drops exactly the unmatched ones: kept plus unmatched equals the row count |
| `DataParsers.KeptIndices` | data_parsers.py:40 | the kept positions increase strictly, each holds a present cell, and every present cell's position is among them |
| `DataParsers.KeptAtIndices` | data_parsers.py:40 | the `k`-th kept row is the frame row at the `k`-th present position, carrying that cell's value |
| `DataParsers.RetainedRows` | data_parsers.py:39-40 | the retained rows are exactly the rows whose extraction is present, in their original relative order, each with its own extracted value; their number is the row count minus the unmatched count |
| `DataParsers.FilterParsed` | data_parsers.py:40 | the loop builds exactly the filtered rows `Kept` describes |
| `DataParsers.Frame.AssignParsed` | data_parsers.py:39 | the frame gains the parsed column in place, one cell per row; its other columns are unchanged |
| `DataParsers.ToCsv` | data_parsers.py:33-40 | the caller's frame gains the parsed column, and the returned rows are the filtered rows of that column; the section defaults to hospital course |

## Left out

- Reading and writing CSV files (data_parsers.py:42, :44, :46), the choice of written columns by `with_code` (lines 41-44), and the header and index options. These are file I/O. `ToCsv` returns the rows that would be written.
- The script with hard-coded paths at lines 46-47. It is a caller with fixed I/O.
- The printed "not matched" lines (22-23, 29). They are logging output only. `Unmatched` models the count they report.
- The `KeyError` for an unknown `section` string (lines 29-30, raised first by the f-string at line 29). `section` is the enumeration `Section`, so no other value exists.
- Non-string or NaN documents, for which pandas yields NaN. Documents are always `string`.
- Python's general regular-expression engine. The two fixed patterns are written out as searches with the engine's order of attempts.
- Case-insensitivity covers ASCII letters only. Python's Unicode `IGNORECASE` also matches a few non-ASCII characters to ASCII letters (for example KELVIN SIGN to `k`). The model does not.
- pandas index alignment when the column is assigned (line 39). The parsed series carries the frame's own index, so alignment keeps rows in place, and the model pairs cells by position.
- `parse_docs` evaluates both patterns even when only one section is requested. The unused one has no observable effect, so the model evaluates only what it returns.
